/** Deciding attributes from the stack (attr.c, fill_one, macroexpand_one, collect_some_attrs). */
module AttrFill {
  import opened Basics
  import opened AttrStack

  type Values = seq<Value>

  function Undecided(v: Values): (n: nat)
    ensures n <= |v|
  {
    if v == [] then 0 else Undecided(v[..|v| - 1]) + if v[|v| - 1] == Unknown then 1 else 0
  }

  /** Once decided, always so. */
  ghost predicate Extends(v: Values, w: Values) {
    |v| == |w| && forall k :: 0 <= k < |v| && v[k] != Unknown ==> w[k] == v[k]
  }

  lemma {:induction false} OneDecided(v: Values, a: nat, x: Value)
    requires a < |v| && v[a] == Unknown && x != Unknown
    ensures Undecided(v[a := x]) == Undecided(v) - 1 && Extends(v, v[a := x])
  {
    var last := |v| - 1;
    if a == last {
      assert v[a := x][..last] == v[..last];
    } else {
      assert v[a := x][..last] == v[..last][a := x];
      OneDecided(v[..last], a, x);
    }
  }

  lemma {:induction false} SomeUndecided(v: Values, a: nat)
    requires a < |v| && v[a] == Unknown
    ensures Undecided(v) > 0
  {
    if a < |v| - 1 {
      SomeUndecided(v[..|v| - 1], a);
    }
  }

  // ---------------------------------------------------------------- macros

  function MacroIn(attrs: seq<MatchAttr>, nr: nat): Option<seq<State>> {
    if attrs == [] then None
    else
      var a := attrs[|attrs| - 1];
      if a.Macro? && a.attr == nr then Some(a.states) else MacroIn(attrs[..|attrs| - 1], nr)
  }

  /** The definition nearest the top of the stack. */
  function FindMacro(stack: seq<Elem>, nr: nat): Option<seq<State>> {
    if stack == [] then None
    else
      match MacroIn(stack[|stack| - 1].attrs, nr)
      case Some(states) => Some(states)
      case None => FindMacro(stack[..|stack| - 1], nr)
  }

  ghost predicate GoodStates(states: seq<State>, n: nat) {
    forall i :: 0 <= i < |states| ==> states[i].attr < n && states[i].setto != Unknown
  }

  ghost predicate GoodLine(a: MatchAttr, n: nat) {
    GoodStates(a.states, n) && (a.Macro? ==> a.attr < n)
  }

  /** What parsing guarantees: numbers below n, and no line sets an attribute to unknown. */
  ghost predicate GoodStack(stack: seq<Elem>, n: nat) {
    forall k, i :: 0 <= k < |stack| && 0 <= i < |stack[k].attrs| ==> GoodLine(stack[k].attrs[i], n)
  }

  lemma {:induction false} GoodMacroIn(attrs: seq<MatchAttr>, nr: nat, n: nat)
    requires forall i :: 0 <= i < |attrs| ==> GoodLine(attrs[i], n)
    ensures MacroIn(attrs, nr).Some? ==> GoodStates(MacroIn(attrs, nr).value, n)
  {
    if attrs != [] {
      GoodMacroIn(attrs[..|attrs| - 1], nr, n);
      assert GoodLine(attrs[|attrs| - 1], n);
    }
  }

  lemma {:induction false} GoodMacro(stack: seq<Elem>, nr: nat, n: nat)
    requires GoodStack(stack, n)
    ensures FindMacro(stack, nr).Some? ==> GoodStates(FindMacro(stack, nr).value, n)
  {
    if stack != [] {
      GoodMacroIn(stack[|stack| - 1].attrs, nr, n);
      GoodMacro(stack[..|stack| - 1], nr, n);
    }
  }

  // ---------------------------------------------------------------- one line, without the counter

  /** Decides the states of a line that are open, the last first, and expands the macros they set. */
  ghost function Filled(stack: seq<Elem>, maybe: set<nat>, v: Values, states: seq<State>, i: nat): (r: Values)
    requires i <= |states| && GoodStack(stack, |v|) && GoodStates(states, |v|)
    ensures Extends(v, r) && Undecided(r) <= Undecided(v)
    decreases Undecided(v), 0, i
  {
    if i == 0 then v
    else
      var st := states[i - 1];
      if v[st.attr] != Unknown then Filled(stack, maybe, v, states, i - 1)
      else
        OneDecided(v, st.attr, st.setto);
        var w := Expanded(stack, maybe, v[st.attr := st.setto], st.attr);
        Filled(stack, maybe, w, states, i - 1)
  }

  /** What setting an attribute entails when it is a macro. */
  ghost function Expanded(stack: seq<Elem>, maybe: set<nat>, v: Values, nr: nat): (r: Values)
    requires nr < |v| && GoodStack(stack, |v|)
    ensures Extends(v, r) && Undecided(r) <= Undecided(v)
    decreases Undecided(v), 1, 0
  {
    if v[nr] != True || nr !in maybe then v
    else
      match FindMacro(stack, nr)
      case None => v
      case Some(states) =>
        GoodMacro(stack, nr, |v|);
        Filled(stack, maybe, v, states, |states|)
  }

  // ---------------------------------------------------------------- what the decisions mean

  ghost predicate AllDecided(v: Values, states: seq<State>, i: nat)
    requires i <= |states|
  {
    forall k :: 0 <= k < i ==> states[k].attr < |v| && v[states[k].attr] != Unknown
  }

  ghost predicate ExpandedAt(stack: seq<Elem>, v: Values, nr: nat)
    requires nr < |v|
  {
    FindMacro(stack, nr).Some? ==> AllDecided(v, FindMacro(stack, nr).value, |FindMacro(stack, nr).value|)
  }

  /** Macros set since v have everything in their definition decided. */
  ghost predicate NewlyClosed(stack: seq<Elem>, v: Values, w: Values) {
    |v| == |w| && forall nr :: 0 <= nr < |v| && v[nr] == Unknown && w[nr] == True ==> ExpandedAt(stack, w, nr)
  }

  /** Every definition on the stack is of an attribute that may be a macro. */
  ghost predicate Covered(stack: seq<Elem>, maybe: set<nat>) {
    forall nr :: FindMacro(stack, nr).Some? ==> nr in maybe
  }

  lemma DecidedStays(v: Values, w: Values, states: seq<State>, i: nat)
    requires i <= |states| && AllDecided(v, states, i) && Extends(v, w)
    ensures AllDecided(w, states, i)
  {
  }

  lemma ClosedTwice(stack: seq<Elem>, u: Values, v: Values, w: Values)
    requires Extends(u, v) && Extends(v, w) && NewlyClosed(stack, u, v) && NewlyClosed(stack, v, w)
    ensures NewlyClosed(stack, u, w)
  {
    forall nr | 0 <= nr < |u| && u[nr] == Unknown && w[nr] == True
      ensures ExpandedAt(stack, w, nr)
    {
      if v[nr] == True && FindMacro(stack, nr).Some? {
        assert ExpandedAt(stack, v, nr);
        DecidedStays(v, w, FindMacro(stack, nr).value, |FindMacro(stack, nr).value|);
      }
    }
  }

  lemma {:induction false} FilledCloses(stack: seq<Elem>, maybe: set<nat>, v: Values, states: seq<State>, i: nat,
                                        r: Values)
    requires i <= |states| && GoodStack(stack, |v|) && GoodStates(states, |v|) && Covered(stack, maybe)
    requires r == Filled(stack, maybe, v, states, i)
    ensures AllDecided(r, states, i) && NewlyClosed(stack, v, r)
    decreases Undecided(v), 0, i
  {
    if i > 0 {
      var st := states[i - 1];
      if v[st.attr] != Unknown {
        FilledCloses(stack, maybe, v, states, i - 1, r);
      } else {
        OneDecided(v, st.attr, st.setto);
        var v1 := v[st.attr := st.setto];
        var w := Expanded(stack, maybe, v1, st.attr);
        ExpandedCloses(stack, maybe, v1, st.attr, w);
        FilledCloses(stack, maybe, w, states, i - 1, r);
        SetThenClosed(stack, v, v1, w, st.attr);
        ClosedTwice(stack, v, w, r);
      }
    }
  }

  lemma SetThenClosed(stack: seq<Elem>, v: Values, v1: Values, w: Values, nr: nat)
    requires nr < |v| == |v1| && v1 == v[nr := v1[nr]] && v[nr] == Unknown && Extends(v1, w)
    requires NewlyClosed(stack, v1, w) && (v1[nr] == True ==> ExpandedAt(stack, w, nr)) && v1[nr] != Unknown
    ensures NewlyClosed(stack, v, w)
  {
  }

  lemma {:induction false} ExpandedCloses(stack: seq<Elem>, maybe: set<nat>, v: Values, nr: nat, r: Values)
    requires nr < |v| && GoodStack(stack, |v|) && Covered(stack, maybe) && r == Expanded(stack, maybe, v, nr)
    ensures NewlyClosed(stack, v, r) && (v[nr] == True ==> ExpandedAt(stack, r, nr))
    decreases Undecided(v), 1, 0
  {
    if v[nr] == True && FindMacro(stack, nr).Some? {
      var states := FindMacro(stack, nr).value;
      GoodMacro(stack, nr, |v|);
      FilledCloses(stack, maybe, v, states, |states|, r);
    }
  }

  /** Set by the definition of a macro that is set. */
  ghost predicate ByMacro(stack: seq<Elem>, v: Values, nr: nat, mac: nat)
    requires nr < |v|
  {
    mac < |v| && v[mac] == True && FindMacro(stack, mac).Some? && State(nr, v[nr]) in FindMacro(stack, mac).value
  }

  /** What was decided since v stands in the line, or in the definition of a macro that is set. */
  ghost predicate NewlyJustified(stack: seq<Elem>, v: Values, w: Values, states: seq<State>) {
    |v| == |w| && forall nr :: 0 <= nr < |v| && v[nr] == Unknown && w[nr] != Unknown ==>
      State(nr, w[nr]) in states || exists mac: nat :: ByMacro(stack, w, nr, mac)
  }

  lemma JustifiedTwice(stack: seq<Elem>, u: Values, v: Values, w: Values, states: seq<State>)
    requires Extends(u, v) && Extends(v, w) && NewlyJustified(stack, u, v, states)
    requires NewlyJustified(stack, v, w, states)
    ensures NewlyJustified(stack, u, w, states)
  {
    forall nr | 0 <= nr < |u| && u[nr] == Unknown && w[nr] != Unknown
      ensures State(nr, w[nr]) in states || exists mac: nat :: ByMacro(stack, w, nr, mac)
    {
      if mac: nat :| v[nr] != Unknown && ByMacro(stack, v, nr, mac) {
        assert ByMacro(stack, w, nr, mac);
      }
    }
  }

  lemma {:induction false} FilledJustified(stack: seq<Elem>, maybe: set<nat>, v: Values, states: seq<State>, i: nat,
                                           r: Values)
    requires i <= |states| && GoodStack(stack, |v|) && GoodStates(states, |v|)
    requires r == Filled(stack, maybe, v, states, i)
    ensures NewlyJustified(stack, v, r, states)
    decreases Undecided(v), 0, i
  {
    if i > 0 {
      var st := states[i - 1];
      if v[st.attr] != Unknown {
        FilledJustified(stack, maybe, v, states, i - 1, r);
      } else {
        OneDecided(v, st.attr, st.setto);
        var v1 := v[st.attr := st.setto];
        var w := Expanded(stack, maybe, v1, st.attr);
        ExpandedJustified(stack, maybe, v1, st.attr, w, states);
        FilledJustified(stack, maybe, w, states, i - 1, r);
        assert State(st.attr, w[st.attr]) == st;
        assert NewlyJustified(stack, v, w, states);
        JustifiedTwice(stack, v, w, r, states);
      }
    }
  }

  lemma {:induction false} ExpandedJustified(stack: seq<Elem>, maybe: set<nat>, v: Values, nr: nat, r: Values,
                                             line: seq<State>)
    requires nr < |v| && GoodStack(stack, |v|) && r == Expanded(stack, maybe, v, nr)
    ensures NewlyJustified(stack, v, r, line)
    decreases Undecided(v), 1, 0
  {
    if v[nr] == True && nr in maybe && FindMacro(stack, nr).Some? {
      var states := FindMacro(stack, nr).value;
      GoodMacro(stack, nr, |v|);
      FilledJustified(stack, maybe, v, states, |states|, r);
      forall k | 0 <= k < |v| && v[k] == Unknown && r[k] != Unknown
        ensures State(k, r[k]) in line || exists mac: nat :: ByMacro(stack, r, k, mac)
      {
        if State(k, r[k]) in states {
          assert ByMacro(stack, r, k, nr);
        }
      }
    }
  }

  // ---------------------------------------------------------------- the whole stack, without the counter

  /** Whether a pattern, from a file of a directory, matches the path looked up. */
  type Matcher = (string, string) -> bool

  function Base(e: Elem): string {
    if e.origin.Some? then e.origin.value else ""
  }

  predicate Applies(m: Matcher, e: Elem, a: MatchAttr) {
    a.Pattern? && m(a.pat, Base(e))
  }

  ghost predicate GoodElem(e: Elem, n: nat) {
    forall i :: 0 <= i < |e.attrs| ==> GoodLine(e.attrs[i], n)
  }

  ghost function FilledElem(stack: seq<Elem>, maybe: set<nat>, m: Matcher, v: Values, e: Elem, i: nat): (r: Values)
    requires i <= |e.attrs| && GoodStack(stack, |v|) && GoodElem(e, |v|)
    ensures Extends(v, r) && Undecided(r) <= Undecided(v)
    decreases i
  {
    if i == 0 then v
    else
      var a := e.attrs[i - 1];
      assert GoodLine(a, |v|);
      var w := if Applies(m, e, a) then Filled(stack, maybe, v, a.states, |a.states|) else v;
      FilledElem(stack, maybe, m, w, e, i - 1)
  }

  ghost function FilledAll(stack: seq<Elem>, maybe: set<nat>, m: Matcher, v: Values, k: nat): (r: Values)
    requires k <= |stack| && GoodStack(stack, |v|)
    ensures Extends(v, r) && Undecided(r) <= Undecided(v)
    decreases k
  {
    if k == 0 then v
    else
      var w := FilledElem(stack, maybe, m, v, stack[k - 1], |stack[k - 1].attrs|);
      FilledAll(stack, maybe, m, w, k - 1)
  }

  function Blank(n: nat): (v: Values)
    ensures |v| == n && forall k :: 0 <= k < n ==> v[k] == Unknown
  {
    seq(n, _ => Unknown)
  }

  ghost function Collected(stack: seq<Elem>, maybe: set<nat>, m: Matcher, n: nat): Values
    requires GoodStack(stack, n)
  {
    FilledAll(stack, maybe, m, Blank(n), |stack|)
  }

  /** A line that applies to the path. */
  ghost predicate LineOf(stack: seq<Elem>, m: Matcher, k: nat, i: nat) {
    k < |stack| && i < |stack[k].attrs| && Applies(m, stack[k], stack[k].attrs[i])
  }

  /** Decided by a line that applies, or by the definition of a macro that is set. */
  ghost predicate Grounded(stack: seq<Elem>, m: Matcher, v: Values, nr: nat)
    requires nr < |v|
  {
    || (exists k: nat, i: nat :: LineOf(stack, m, k, i) && State(nr, v[nr]) in stack[k].attrs[i].states)
    || (exists mac: nat :: ByMacro(stack, v, nr, mac))
  }

  ghost predicate NewlyGrounded(stack: seq<Elem>, m: Matcher, v: Values, w: Values) {
    |v| == |w| && forall nr :: 0 <= nr < |v| && v[nr] == Unknown && w[nr] != Unknown ==> Grounded(stack, m, w, nr)
  }

  lemma GroundedTwice(stack: seq<Elem>, m: Matcher, u: Values, v: Values, w: Values)
    requires Extends(u, v) && Extends(v, w) && NewlyGrounded(stack, m, u, v) && NewlyGrounded(stack, m, v, w)
    ensures NewlyGrounded(stack, m, u, w)
  {
    forall nr | 0 <= nr < |u| && u[nr] == Unknown && w[nr] != Unknown
      ensures Grounded(stack, m, w, nr)
    {
      if v[nr] != Unknown {
        assert Grounded(stack, m, v, nr);
        if mac: nat :| ByMacro(stack, v, nr, mac) {
          assert ByMacro(stack, w, nr, mac);
        }
      }
    }
  }

  ghost predicate LinesDecided(m: Matcher, v: Values, e: Elem, i: nat)
    requires i <= |e.attrs|
  {
    forall j :: 0 <= j < i && Applies(m, e, e.attrs[j]) ==> AllDecided(v, e.attrs[j].states, |e.attrs[j].states|)
  }

  lemma LineGrounded(stack: seq<Elem>, m: Matcher, v: Values, w: Values, k: nat, i: nat)
    requires LineOf(stack, m, k, i) && NewlyJustified(stack, v, w, stack[k].attrs[i].states)
    ensures NewlyGrounded(stack, m, v, w)
  {
    forall nr | 0 <= nr < |v| && v[nr] == Unknown && w[nr] != Unknown
      ensures Grounded(stack, m, w, nr)
    {
      if State(nr, w[nr]) in stack[k].attrs[i].states {
        assert LineOf(stack, m, k, i);
      }
    }
  }

  lemma NoLines(m: Matcher, v: Values, e: Elem)
    ensures LinesDecided(m, v, e, 0)
  {
  }

  lemma OneMoreLine(m: Matcher, v: Values, e: Elem, i: nat)
    requires 0 < i <= |e.attrs| && LinesDecided(m, v, e, i - 1)
    requires Applies(m, e, e.attrs[i - 1]) ==> AllDecided(v, e.attrs[i - 1].states, |e.attrs[i - 1].states|)
    ensures LinesDecided(m, v, e, i)
  {
    hide Applies, AllDecided;
  }

  lemma NothingNew(stack: seq<Elem>, m: Matcher, v: Values)
    ensures NewlyClosed(stack, v, v) && NewlyGrounded(stack, m, v, v)
  {
  }

  lemma {:induction false} ElemMeans(stack: seq<Elem>, maybe: set<nat>, m: Matcher, v: Values, k: nat, i: nat,
                                     r: Values)
    requires k < |stack| && i <= |stack[k].attrs| && GoodStack(stack, |v|) && Covered(stack, maybe)
    requires r == FilledElem(stack, maybe, m, v, stack[k], i)
    ensures NewlyClosed(stack, v, r) && NewlyGrounded(stack, m, v, r) && LinesDecided(m, r, stack[k], i)
    decreases i
  {
    hide Filled, NewlyClosed, NewlyGrounded, Covered, Applies, LinesDecided, Extends, Undecided;
    if i == 0 {
      NothingNew(stack, m, v);
      NoLines(m, r, stack[k]);
    } else {
      var e := stack[k];
      var a := e.attrs[i - 1];
      assert GoodLine(a, |v|);
      if Applies(m, e, a) {
        var w := Filled(stack, maybe, v, a.states, |a.states|);
        FilledCloses(stack, maybe, v, a.states, |a.states|, w);
        FilledJustified(stack, maybe, v, a.states, |a.states|, w);
        LineGrounded(stack, m, v, w, k, i - 1);
        ElemMeans(stack, maybe, m, w, k, i - 1, r);
        ClosedTwice(stack, v, w, r);
        GroundedTwice(stack, m, v, w, r);
        DecidedStays(w, r, a.states, |a.states|);
      } else {
        ElemMeans(stack, maybe, m, v, k, i - 1, r);
      }
      OneMoreLine(m, r, e, i);
    }
  }

  ghost predicate ElemsDecided(stack: seq<Elem>, m: Matcher, v: Values, k: nat)
    requires k <= |stack|
  {
    forall j :: 0 <= j < k ==> LinesDecided(m, v, stack[j], |stack[j].attrs|)
  }

  lemma LinesStay(m: Matcher, v: Values, w: Values, e: Elem)
    requires LinesDecided(m, v, e, |e.attrs|) && Extends(v, w)
    ensures LinesDecided(m, w, e, |e.attrs|)
  {
    forall j | 0 <= j < |e.attrs| && Applies(m, e, e.attrs[j])
      ensures AllDecided(w, e.attrs[j].states, |e.attrs[j].states|)
    {
      DecidedStays(v, w, e.attrs[j].states, |e.attrs[j].states|);
    }
  }

  lemma {:induction false} AllMeans(stack: seq<Elem>, maybe: set<nat>, m: Matcher, v: Values, k: nat, r: Values)
    requires k <= |stack| && GoodStack(stack, |v|) && Covered(stack, maybe) && r == FilledAll(stack, maybe, m, v, k)
    ensures NewlyClosed(stack, v, r) && NewlyGrounded(stack, m, v, r) && ElemsDecided(stack, m, r, k)
    decreases k
  {
    hide FilledElem, NewlyClosed, NewlyGrounded, LinesDecided, Undecided;
    NothingNew(stack, m, v);
    if k > 0 {
      var w := FilledElem(stack, maybe, m, v, stack[k - 1], |stack[k - 1].attrs|);
      ElemMeans(stack, maybe, m, v, k - 1, |stack[k - 1].attrs|, w);
      AllMeans(stack, maybe, m, w, k - 1, r);
      ClosedTwice(stack, v, w, r);
      GroundedTwice(stack, m, v, w, r);
      LinesStay(m, w, r, stack[k - 1]);
    }
  }

  /** Every attribute of a line that applies is decided, and of a macro that is set; nothing else is
      decided, and each value is one that such a line or macro gives. */
  lemma CollectedMeans(stack: seq<Elem>, maybe: set<nat>, m: Matcher, n: nat, r: Values)
    requires GoodStack(stack, n) && Covered(stack, maybe) && r == Collected(stack, maybe, m, n)
    ensures |r| == n && ElemsDecided(stack, m, r, |stack|)
    ensures forall nr :: 0 <= nr < n && r[nr] == True ==> ExpandedAt(stack, r, nr)
    ensures forall nr :: 0 <= nr < n && r[nr] != Unknown ==> Grounded(stack, m, r, nr)
  {
    AllMeans(stack, maybe, m, Blank(n), |stack|, r);
  }

  // ---------------------------------------------------------------- with the counter

  lemma {:induction false} NothingOpen(stack: seq<Elem>, maybe: set<nat>, v: Values, states: seq<State>, i: nat)
    requires i <= |states| && GoodStack(stack, |v|) && GoodStates(states, |v|) && Undecided(v) == 0
    ensures Filled(stack, maybe, v, states, i) == v
    decreases i
  {
    if i > 0 {
      if v[states[i - 1].attr] == Unknown {
        SomeUndecided(v, states[i - 1].attr);
      }
      NothingOpen(stack, maybe, v, states, i - 1);
    }
  }

  lemma {:induction false} NothingOpenInElem(stack: seq<Elem>, maybe: set<nat>, m: Matcher, v: Values, e: Elem, i: nat)
    requires i <= |e.attrs| && GoodStack(stack, |v|) && GoodElem(e, |v|) && Undecided(v) == 0
    ensures FilledElem(stack, maybe, m, v, e, i) == v
    decreases i
  {
    if i > 0 {
      assert GoodLine(e.attrs[i - 1], |v|);
      NothingOpen(stack, maybe, v, e.attrs[i - 1].states, |e.attrs[i - 1].states|);
      NothingOpenInElem(stack, maybe, m, v, e, i - 1);
    }
  }

  lemma {:induction false} NothingOpenInAll(stack: seq<Elem>, maybe: set<nat>, m: Matcher, v: Values, k: nat)
    requires k <= |stack| && GoodStack(stack, |v|) && Undecided(v) == 0
    ensures FilledAll(stack, maybe, m, v, k) == v
    decreases k
  {
    if k > 0 {
      NothingOpenInElem(stack, maybe, m, v, stack[k - 1], |stack[k - 1].attrs|);
      NothingOpenInAll(stack, maybe, m, v, k - 1);
    }
  }

  lemma FilledNone(stack: seq<Elem>, maybe: set<nat>, v: Values, states: seq<State>)
    requires GoodStack(stack, |v|) && GoodStates(states, |v|)
    ensures Filled(stack, maybe, v, states, 0) == v
  {
  }

  lemma FilledStep(stack: seq<Elem>, maybe: set<nat>, v: Values, states: seq<State>, i: nat)
    requires 0 < i <= |states| && GoodStack(stack, |v|) && GoodStates(states, |v|)
    ensures
      var st := states[i - 1];
      && st.attr < |v| && st.setto != Unknown
      && (if v[st.attr] != Unknown then Filled(stack, maybe, v, states, i) == Filled(stack, maybe, v, states, i - 1)
          else
            var w := Expanded(stack, maybe, v[st.attr := st.setto], st.attr);
            |w| == |v| && Filled(stack, maybe, v, states, i) == Filled(stack, maybe, w, states, i - 1))
  {
    var st := states[i - 1];
    if v[st.attr] == Unknown {
      OneDecided(v, st.attr, st.setto);
    }
  }

  method Decide(check: array<Value>, attr: nat, v: Value, rem: nat) returns (left: nat)
    requires attr < check.Length && check[attr] == Unknown && v != Unknown && rem == Undecided(check[..])
    modifies check
    ensures check[..] == old(check[..])[attr := v] && left == Undecided(check[..]) == rem - 1
  {
    OneDecided(check[..], attr, v);
    ghost var was := check[..];
    check[attr] := v;
    assert check[..] == was[attr := v];
    left := rem - 1;
  }

  /** The counter is the number of open attributes; stopping at zero changes nothing. */
  method FillOne(stack: seq<Elem>, maybe: set<nat>, check: array<Value>, states: seq<State>, rem: nat)
    returns (left: nat)
    requires GoodStack(stack, check.Length) && GoodStates(states, check.Length) && rem == Undecided(check[..])
    modifies check
    ensures check[..] == Filled(stack, maybe, old(check[..]), states, |states|)
    ensures left == Undecided(check[..])
    decreases rem, 0
  {
    hide Filled, Expanded, Undecided, GoodStack;
    left := rem;
    var i := |states|;
    ghost var whole := Filled(stack, maybe, check[..], states, |states|);
    while 0 < left && 0 < i
      invariant 0 <= i <= |states| && left == Undecided(check[..]) <= rem
      invariant whole == Filled(stack, maybe, check[..], states, i)
      decreases i
    {
      i := i - 1;
      FilledStep(stack, maybe, check[..], states, i + 1);
      if check[states[i].attr] == Unknown {
        left := Decide(check, states[i].attr, states[i].setto, left);
        left := MacroexpandOne(stack, maybe, check, states[i].attr, left);
      }
    }
    if left == 0 {
      NothingOpen(stack, maybe, check[..], states, i);
    } else {
      FilledNone(stack, maybe, check[..], states);
    }
  }

  method MacroexpandOne(stack: seq<Elem>, maybe: set<nat>, check: array<Value>, nr: nat, rem: nat) returns (left: nat)
    requires GoodStack(stack, check.Length) && nr < check.Length && rem == Undecided(check[..])
    modifies check
    ensures check[..] == Expanded(stack, maybe, old(check[..]), nr)
    ensures left == Undecided(check[..])
    decreases rem, 1
  {
    left := rem;
    if check[nr] != True || nr !in maybe {
      return;
    }
    var a := SearchMacro(stack, nr);
    if a.Some? {
      GoodMacro(stack, nr, check.Length);
      left := FillOne(stack, maybe, check, a.value, left);
    }
  }

  method SearchMacro(stack: seq<Elem>, nr: nat) returns (a: Option<seq<State>>)
    ensures a == FindMacro(stack, nr)
  {
    hide MacroIn;
    a := None;
    var k := |stack|;
    assert stack[..k] == stack;
    while a.None? && k > 0
      invariant 0 <= k <= |stack|
      invariant FindMacro(stack, nr) == if a.Some? then a else FindMacro(stack[..k], nr)
    {
      k := k - 1;
      assert stack[..k + 1][..k] == stack[..k];
      a := SearchLines(stack[k].attrs, nr);
    }
  }

  method SearchLines(attrs: seq<MatchAttr>, nr: nat) returns (a: Option<seq<State>>)
    ensures a == MacroIn(attrs, nr)
  {
    a := None;
    var i := |attrs|;
    assert attrs[..i] == attrs;
    while a.None? && i > 0
      invariant 0 <= i <= |attrs|
      invariant MacroIn(attrs, nr) == if a.Some? then a else MacroIn(attrs[..i], nr)
    {
      i := i - 1;
      assert attrs[..i + 1][..i] == attrs[..i];
      if attrs[i].Macro? && attrs[i].attr == nr {
        a := Some(attrs[i].states);
      }
    }
  }

  /** One line of a file; macros are not matched. */
  method FillLine(stack: seq<Elem>, maybe: set<nat>, m: Matcher, check: array<Value>, e: Elem, i: nat, rem: nat,
                  ghost whole: Values)
    returns (left: nat)
    requires GoodStack(stack, check.Length) && GoodElem(e, check.Length) && i < |e.attrs| && rem == Undecided(check[..])
    requires whole == FilledElem(stack, maybe, m, check[..], e, i + 1)
    modifies check
    ensures whole == FilledElem(stack, maybe, m, check[..], e, i) && left == Undecided(check[..])
  {
    left := rem;
    var a := e.attrs[i];
    assert GoodLine(a, check.Length);
    if a.Macro? {
      return;
    }
    if m(a.pat, Base(e)) {
      left := FillOne(stack, maybe, check, a.states, left);
    }
  }

  method Fill(stack: seq<Elem>, maybe: set<nat>, m: Matcher, check: array<Value>, e: Elem, rem: nat) returns (left: nat)
    requires GoodStack(stack, check.Length) && GoodElem(e, check.Length) && rem == Undecided(check[..])
    modifies check
    ensures check[..] == FilledElem(stack, maybe, m, old(check[..]), e, |e.attrs|)
    ensures left == Undecided(check[..])
  {
    left := rem;
    var i := |e.attrs|;
    ghost var whole := FilledElem(stack, maybe, m, check[..], e, i);
    while 0 < left && 0 < i
      invariant 0 <= i <= |e.attrs| && left == Undecided(check[..])
      invariant whole == FilledElem(stack, maybe, m, check[..], e, i)
      decreases i
    {
      i := i - 1;
      left := FillLine(stack, maybe, m, check, e, i, left, whole);
    }
    if left == 0 {
      NothingOpenInElem(stack, maybe, m, check[..], e, i);
    }
  }

  /** Collecting all attributes of the path a matcher stands for. */
  method CollectAttrs(stack: seq<Elem>, maybe: set<nat>, m: Matcher, check: array<Value>)
    requires GoodStack(stack, check.Length)
    modifies check
    ensures check[..] == Collected(stack, maybe, m, check.Length)
  {
    Reset(check);
    AllOpen(check[..]);
    FillStack(stack, maybe, m, check, check.Length);
  }

  method Reset(check: array<Value>)
    modifies check
    ensures check[..] == Blank(check.Length)
  {
    var k := 0;
    while k < check.Length
      invariant k <= check.Length && forall j :: 0 <= j < k ==> check[j] == Unknown
    {
      check[k] := Unknown;
      k := k + 1;
    }
  }

  /** One file of the stack. */
  method FillNext(stack: seq<Elem>, maybe: set<nat>, m: Matcher, check: array<Value>, k: nat, rem: nat,
                  ghost whole: Values)
    returns (left: nat)
    requires k < |stack| && GoodStack(stack, check.Length) && rem == Undecided(check[..])
    requires whole == FilledAll(stack, maybe, m, check[..], k + 1)
    modifies check
    ensures whole == FilledAll(stack, maybe, m, check[..], k) && left == Undecided(check[..])
  {
    left := Fill(stack, maybe, m, check, stack[k], rem);
  }

  method FillStack(stack: seq<Elem>, maybe: set<nat>, m: Matcher, check: array<Value>, start: nat)
    requires GoodStack(stack, check.Length) && start == Undecided(check[..])
    modifies check
    ensures check[..] == FilledAll(stack, maybe, m, old(check[..]), |stack|)
  {
    var rem, k := start, |stack|;
    ghost var whole := FilledAll(stack, maybe, m, check[..], k);
    while 0 < rem && 0 < k
      invariant 0 <= k <= |stack| && rem == Undecided(check[..])
      invariant whole == FilledAll(stack, maybe, m, check[..], k)
      decreases k
    {
      k := k - 1;
      rem := FillNext(stack, maybe, m, check, k, rem, whole);
    }
    if rem == 0 {
      NothingOpenInAll(stack, maybe, m, check[..], k);
    }
  }

  lemma {:induction false} AllOpen(v: Values)
    requires forall k :: 0 <= k < |v| ==> v[k] == Unknown
    ensures Undecided(v) == |v|
  {
    if v != [] {
      AllOpen(v[..|v| - 1]);
    }
  }
}
