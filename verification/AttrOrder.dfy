/** Which of several settings wins (attr.c, collect_some_attrs): the first one met when files are read from the top of
    the stack, lines from the last and settings of a line from the last, and when the definition of a macro is read
    right behind the setting that turns it on. */
module AttrOrder {
  import opened Basics
  import opened AttrStack
  import opened AttrFill

  // ---------------------------------------------------------------- places

  /** A place is the file, the line and the setting in the line; then, for each macro entered, the setting in its
      definition. */
  type Place = seq<int>

  /** Met earlier: a setting comes before those of the macro it turns on, and higher numbers come first. */
  predicate Before(p: Place, q: Place) {
    if q == [] then false
    else if p == [] then true
    else p[0] > q[0] || (p[0] == q[0] && Before(p[1..], q[1..]))
  }

  /** The settings a place leads to: those of a line that applies, or of the definition of a macro turned on there. */
  ghost function ListAt(stack: seq<Elem>, m: Matcher, p: Place): Option<seq<State>>
    decreases |p|, 1
  {
    if |p| == 2 then
      if 0 <= p[0] && 0 <= p[1] && LineOf(stack, m, p[0], p[1]) then Some(stack[p[0]].attrs[p[1]].states) else None
    else if |p| >= 3 then
      match StateAt(stack, m, p)
      case Some(st) => if st.setto == True then FindMacro(stack, st.attr) else None
      case None => None
    else None
  }

  ghost function StateAt(stack: seq<Elem>, m: Matcher, p: Place): Option<State>
    decreases |p|, 0
  {
    if p == [] then None
    else
      var last := p[|p| - 1];
      match ListAt(stack, m, p[..|p| - 1])
      case Some(states) => if 0 <= last < |states| then Some(states[last]) else None
      case None => None
  }

  /** The place of each decided attribute; the empty place where it is not decided. */
  type Places = seq<Place>

  /** A line, or the place that decided the macro in it. */
  ghost predicate Entered(stack: seq<Elem>, m: Matcher, places: Places, p: Place) {
    || |p| == 2
    || (StateAt(stack, m, p).Some?
        && var nr := StateAt(stack, m, p).value.attr; nr < |places| && places[nr] == p)
  }

  /** A setting that is met: in a line that applies, or in the definition of a macro whose own setting won. */
  ghost predicate Met(stack: seq<Elem>, m: Matcher, places: Places, p: Place) {
    p != [] && StateAt(stack, m, p).Some? && Entered(stack, m, places, p[..|p| - 1])
  }

  /** Each attribute has the value of a setting that is met, and it is undecided when there is none. */
  ghost predicate Sound(stack: seq<Elem>, m: Matcher, v: Values, places: Places) {
    && |places| == |v|
    && forall nr :: 0 <= nr < |v| ==>
      && (places[nr] == [] <==> v[nr] == Unknown)
      && (places[nr] != [] ==>
            Met(stack, m, places, places[nr]) && StateAt(stack, m, places[nr]) == Some(State(nr, v[nr])))
  }

  ghost predicate NotAfter(places: Places, nr: nat, p: Place) {
    nr < |places| && places[nr] != [] && (places[nr] == p || Before(places[nr], p))
  }

  /** Of all settings that are met, the first decides. */
  ghost predicate FirstWins(stack: seq<Elem>, m: Matcher, v: Values, places: Places) {
    && Sound(stack, m, v, places)
    && forall p :: Met(stack, m, places, p) ==> NotAfter(places, StateAt(stack, m, p).value.attr, p)
  }

  // ---------------------------------------------------------------- the order

  lemma {:induction false} BeforeTrans(p: Place, q: Place, r: Place)
    requires Before(p, q) && Before(q, r)
    ensures Before(p, r)
  {
    if p != [] && p[0] == q[0] && q[0] == r[0] {
      BeforeTrans(p[1..], q[1..], r[1..]);
    }
  }

  lemma {:induction false} BeforeTotal(p: Place, q: Place)
    ensures Before(p, q) || p == q || Before(q, p)
    ensures !(Before(p, q) && Before(q, p)) && !Before(p, p)
  {
    if p != [] {
      BeforeTotal(p[1..], p[1..]);
      if q != [] {
        BeforeTotal(p[1..], q[1..]);
        assert p == [p[0]] + p[1..] && q == [q[0]] + q[1..];
      }
    }
  }

  lemma {:induction false} BeforeExtended(p: Place, q: Place)
    ensures q != [] ==> Before(p, p + q)
    ensures !Before(p + q, p)
  {
    if p == [] {
      assert p + q == q;
    } else {
      assert (p + q)[1..] == p[1..] + q;
      BeforeExtended(p[1..], q);
    }
  }

  lemma {:induction false} BeforeBehind(p: Place, q: Place, r: Place)
    ensures Before(p + q, p + r) == Before(q, r)
  {
    if p == [] {
      assert p + q == q && p + r == r;
    } else {
      assert (p + q)[1..] == p[1..] + q && (p + r)[1..] == p[1..] + r;
      BeforeBehind(p[1..], q, r);
    }
  }

  /** What does not go through a place is before all that does, or before nothing of it. */
  lemma {:induction false} BeforeApart(c: Place, p: Place, q: Place)
    requires !(p <= c)
    ensures Before(c, p + q) == Before(c, p)
  {
    if p != [] && c != [] {
      assert (p + q)[1..] == p[1..] + q;
      if p[0] == c[0] {
        assert p[1..] <= c[1..] ==> p <= c by {
          assert p == [p[0]] + p[1..] && c == [c[0]] + c[1..];
        }
        BeforeApart(c[1..], p[1..], q);
      }
    }
  }

  lemma Through(c: Place, p: Place)
    requires p <= c
    ensures c == p + c[|p|..]
  {
  }

  /** Between a place and the first of what it leads to there is only the place itself. */
  lemma GapInto(c: Place, p: Place, b: int)
    requires Before(c, p + [b]) && !Before(c, p)
    ensures p <= c && (c == p || c[|p|] > b)
  {
    if !(p <= c) {
      BeforeApart(c, p, [b]);
    } else {
      Through(c, p);
      BeforeBehind(p, c[|p|..], [b]);
    }
  }

  /** Between a place and the next of the same list there is what goes through it. */
  lemma GapNext(c: Place, p: Place, a: int)
    requires Before(c, p + [a - 1]) && !Before(c, p + [a])
    ensures p + [a] <= c
  {
    if !(p <= c) {
      BeforeApart(c, p, [a]);
      BeforeApart(c, p, [a - 1]);
    } else {
      Through(c, p);
      BeforeBehind(p, c[|p|..], [a - 1]);
      BeforeBehind(p, c[|p|..], [a]);
      BeforeExtended(p, [a]);
      assert c != p;
      assert c[|p|] == a;
    }
  }

  /** Behind all that a place leads to comes the next of its list. */
  lemma GapOut(c: Place, p: Place, a: int)
    requires Before(c, p + [a - 1]) && !Before(c, p + [a] + [-1])
    ensures p + [a] <= c && |c| > |p| + 1 && c[|p| + 1] < 0
  {
    var q := p + [a];
    BeforeExtended(q, [-1]);
    if Before(c, q) {
      BeforeTrans(c, q, q + [-1]);
    }
    GapNext(c, p, a);
    Through(c, q);
    BeforeBehind(q, c[|q|..], [-1]);
    assert c != q;
  }

  lemma StepsForward(p: Place, a: int)
    ensures Before(p + [a], p + [a - 1]) && Before(p + [a] + [-1], p + [a - 1])
  {
    BeforeBehind(p, [a], [a - 1]);
    BeforeBehind(p, [a] + [-1], [a - 1]);
    assert p + [a] + [-1] == p + ([a] + [-1]);
  }

  // ---------------------------------------------------------------- what a place holds

  /** A setting is in the list that the place before it leads to. */
  lemma {:induction false} StateMeansList(stack: seq<Elem>, m: Matcher, c: Place, n: nat)
    requires StateAt(stack, m, c).Some? && n < |c|
    ensures |c| >= 3
    ensures n >= 2 ==> var q := c[..n];
      ListAt(stack, m, q).Some? && 0 <= c[n] < |ListAt(stack, m, q).value|
    ensures 0 <= c[0] < |stack| && 0 <= c[1] < |stack[c[0]].attrs|
    decreases |c|
  {
    hide LineOf;
    var q := c[..|c| - 1];
    assert ListAt(stack, m, q).Some?;
    if |q| >= 3 {
      StateMeansList(stack, m, q, if n < |q| then n else 0);
      assert n < |q| ==> q[..n] == c[..n];
    } else {
      LineMeans(stack, m, q);
    }
  }

  lemma LineMeans(stack: seq<Elem>, m: Matcher, q: Place)
    requires |q| == 2 && ListAt(stack, m, q).Some?
    ensures 0 <= q[0] < |stack| && 0 <= q[1] < |stack[q[0]].attrs|
  {
  }

  lemma GoodList(stack: seq<Elem>, m: Matcher, p: Place, n: nat)
    requires GoodStack(stack, n)
    ensures ListAt(stack, m, p).Some? ==> GoodStates(ListAt(stack, m, p).value, n)
  {
    hide StateAt;
    if |p| == 2 {
      if 0 <= p[0] && 0 <= p[1] && LineOf(stack, m, p[0], p[1]) {
        assert GoodLine(stack[p[0]].attrs[p[1]], n);
      }
    } else if |p| >= 3 && StateAt(stack, m, p).Some? {
      GoodMacro(stack, StateAt(stack, m, p).value.attr, n);
    }
  }

  lemma GoodState(stack: seq<Elem>, m: Matcher, p: Place, n: nat)
    requires GoodStack(stack, n) && StateAt(stack, m, p).Some?
    ensures StateAt(stack, m, p).value.attr < n && StateAt(stack, m, p).value.setto != Unknown
  {
    hide ListAt, GoodStack;
    GoodList(stack, m, p[..|p| - 1], n);
  }

  lemma Listed(stack: seq<Elem>, m: Matcher, p: Place, x: int)
    ensures StateAt(stack, m, p + [x]) ==
      match ListAt(stack, m, p)
      case Some(states) => if 0 <= x < |states| then Some(states[x]) else None
      case None => None
  {
    hide ListAt;
    assert (p + [x])[..|p|] == p;
  }

  // ---------------------------------------------------------------- one run

  /** Everything met before the place at has been dealt with, and nothing else. */
  ghost predicate UpTo(stack: seq<Elem>, m: Matcher, v: Values, places: Places, at: Place) {
    && Sound(stack, m, v, places)
    && (forall nr :: 0 <= nr < |places| && places[nr] != [] ==> Before(places[nr], at))
    && (forall p :: Met(stack, m, places, p) && Before(p, at) ==> NotAfter(places, StateAt(stack, m, p).value.attr, p))
  }

  /** Moving on over places that hold nothing. */
  lemma MoveOn(stack: seq<Elem>, m: Matcher, v: Values, places: Places, p: Place, q: Place)
    requires UpTo(stack, m, v, places, p) && Before(p, q)
    requires forall c :: Met(stack, m, places, c) && Before(c, q) && !Before(c, p) ==>
      NotAfter(places, StateAt(stack, m, c).value.attr, c)
    ensures UpTo(stack, m, v, places, q)
  {
    hide StateAt, Met, Before, NotAfter;
    forall nr | 0 <= nr < |places| && places[nr] != []
      ensures Before(places[nr], q)
    {
      BeforeTrans(places[nr], p, q);
    }
  }

  lemma MoveFree(stack: seq<Elem>, m: Matcher, v: Values, places: Places, p: Place, q: Place)
    requires UpTo(stack, m, v, places, p) && Before(p, q)
    requires forall c :: Before(c, q) && !Before(c, p) ==> StateAt(stack, m, c).None?
    ensures UpTo(stack, m, v, places, q)
  {
    hide StateAt, Before, NotAfter, UpTo;
    MoveOn(stack, m, v, places, p, q);
  }

  /** On to the first setting of a list. */
  lemma MoveInto(stack: seq<Elem>, m: Matcher, v: Values, places: Places, p: Place, b: int)
    requires UpTo(stack, m, v, places, p) && |p| == 2
    requires ListAt(stack, m, p).Some? ==> b + 1 >= |ListAt(stack, m, p).value|
    ensures UpTo(stack, m, v, places, p + [b])
  {
    hide Before, UpTo, ListAt, NotAfter;
    BeforeExtended(p, [b]);
    forall c | Before(c, p + [b]) && !Before(c, p)
      ensures StateAt(stack, m, c).None?
    {
      GapInto(c, p, b);
      if StateAt(stack, m, c).Some? {
        assert c[..|p|] == p;
        StateMeansList(stack, m, c, 0);
        StateMeansList(stack, m, c, |p|);
        assert false;
      }
    }
    MoveFree(stack, m, v, places, p, p + [b]);
  }

  /** Out of a list to the next of the list it stands in. */
  lemma MoveOut(stack: seq<Elem>, m: Matcher, v: Values, places: Places, p: Place, a: int)
    requires UpTo(stack, m, v, places, p + [a] + [-1]) && p != []
    ensures UpTo(stack, m, v, places, p + [a - 1])
  {
    hide Before, UpTo, ListAt, NotAfter;
    StepsForward(p, a);
    forall c | Before(c, p + [a - 1]) && !Before(c, p + [a] + [-1])
      ensures StateAt(stack, m, c).None?
    {
      GapOut(c, p, a);
      if StateAt(stack, m, c).Some? {
        StateMeansList(stack, m, c, |p| + 1);
        assert false;
      }
    }
    MoveFree(stack, m, v, places, p + [a] + [-1], p + [a - 1]);
  }

  /** Past a setting of an attribute that is decided. */
  lemma MovePast(stack: seq<Elem>, m: Matcher, v: Values, places: Places, p: Place, a: int)
    requires UpTo(stack, m, v, places, p + [a]) && |p| >= 2
    requires StateAt(stack, m, p + [a]).Some?
    requires var nr := StateAt(stack, m, p + [a]).value.attr; nr < |v| && v[nr] != Unknown
    ensures UpTo(stack, m, v, places, p + [a - 1])
  {
    hide Before, ListAt, StateAt;
    var q := p + [a];
    StepsForward(p, a);
    forall c | Met(stack, m, places, c) && Before(c, p + [a - 1]) && !Before(c, q)
      ensures NotAfter(places, StateAt(stack, m, c).value.attr, c)
    {
      GapNext(c, p, a);
      if c != q {
        NothingInside(stack, m, places, q, c);
        assert false;
      }
    }
    MoveOn(stack, m, v, places, q, p + [a - 1]);
  }

  /** What lies inside a setting that was passed by is not met. */
  lemma NothingInside(stack: seq<Elem>, m: Matcher, places: Places, q: Place, c: Place)
    requires |q| >= 3 && q <= c && c != q
    requires forall nr :: 0 <= nr < |places| && places[nr] != [] ==> Before(places[nr], q)
    ensures !Met(stack, m, places, c)
  {
    hide Before, ListAt, StateAt;
    var d := c[..|c| - 1];
    assert q <= d;
    Through(d, q);
    BeforeExtended(q, d[|q|..]);
  }

  /** A setting of an open attribute decides it. */
  lemma Decided(stack: seq<Elem>, m: Matcher, v: Values, places: Places, p: Place, a: int, b: int)
    requires GoodStack(stack, |v|) && UpTo(stack, m, v, places, p + [a]) && |p| >= 2 && Entered(stack, m, places, p)
    requires StateAt(stack, m, p + [a]).Some? && b >= -1
    requires ListAt(stack, m, p + [a]).Some? ==> b + 1 >= |ListAt(stack, m, p + [a]).value|
    requires var nr := StateAt(stack, m, p + [a]).value.attr; nr < |v| && v[nr] == Unknown
    ensures var st := StateAt(stack, m, p + [a]).value;
      && UpTo(stack, m, v[st.attr := st.setto], places[st.attr := p + [a]], p + [a] + [b])
      && Entered(stack, m, places[st.attr := p + [a]], p + [a])
  {
    hide Before, ListAt, StateAt, GoodStack;
    var q := p + [a];
    var st := StateAt(stack, m, q).value;
    GoodState(stack, m, q, |v|);
    var v', places' := v[st.attr := st.setto], places[st.attr := q];
    assert Sound(stack, m, v', places') by {
      DecidedSound(stack, m, v, places, p, a);
    }
    BeforeExtended(q, [b]);
    forall nr | 0 <= nr < |places'| && places'[nr] != []
      ensures Before(places'[nr], q + [b])
    {
      if nr != st.attr {
        BeforeTrans(places[nr], q, q + [b]);
      }
    }
    forall c | Met(stack, m, places', c) && Before(c, q + [b])
      ensures NotAfter(places', StateAt(stack, m, c).value.attr, c)
    {
      MetBefore(stack, m, v, places, q, c, b);
    }
  }

  lemma DecidedSound(stack: seq<Elem>, m: Matcher, v: Values, places: Places, p: Place, a: int)
    requires Sound(stack, m, v, places) && |p| >= 2 && Entered(stack, m, places, p)
    requires StateAt(stack, m, p + [a]).Some?
    requires var st := StateAt(stack, m, p + [a]).value; st.attr < |v| && v[st.attr] == Unknown && st.setto != Unknown
    ensures var st := StateAt(stack, m, p + [a]).value;
      Sound(stack, m, v[st.attr := st.setto], places[st.attr := p + [a]])
  {
    hide ListAt, StateAt;
    var q := p + [a];
    var st := StateAt(stack, m, q).value;
    var v', places' := v[st.attr := st.setto], places[st.attr := q];
    assert q[..|q| - 1] == p;
    EnteredStays(stack, m, places, p, st.attr, q);
    forall nr | 0 <= nr < |v'| && nr != st.attr && places'[nr] != []
      ensures Met(stack, m, places', places'[nr])
    {
      EnteredStays(stack, m, places, places[nr][..|places[nr]| - 1], st.attr, q);
    }
  }

  lemma EnteredStays(stack: seq<Elem>, m: Matcher, places: Places, p: Place, nr: nat, q: Place)
    requires Entered(stack, m, places, p) && nr < |places| && places[nr] == []
    ensures Entered(stack, m, places[nr := q], p)
  {
    hide ListAt;
  }

  /** With the setting at q decided, nothing new is met before what it leads to. */
  lemma MetBefore(stack: seq<Elem>, m: Matcher, v: Values, places: Places, q: Place, c: Place, b: int)
    requires UpTo(stack, m, v, places, q) && |q| >= 3 && StateAt(stack, m, q).Some?
    requires ListAt(stack, m, q).Some? ==> b + 1 >= |ListAt(stack, m, q).value|
    requires var nr := StateAt(stack, m, q).value.attr; nr < |v| && v[nr] == Unknown
    requires Met(stack, m, places[StateAt(stack, m, q).value.attr := q], c) && Before(c, q + [b])
    ensures NotAfter(places[StateAt(stack, m, q).value.attr := q], StateAt(stack, m, c).value.attr, c)
  {
    hide Before, ListAt, StateAt;
    var nr := StateAt(stack, m, q).value.attr;
    var d := c[..|c| - 1];
    if Before(c, q) {
      if d == q {
        BeforeExtended(d, c[|d|..]);
        Through(c, d);
        assert false;
      }
      assert Entered(stack, m, places, d);
      assert Met(stack, m, places, c);
    } else {
      GapInto(c, q, b);
      if c != q {
        assert c[..|q|] == q;
        StateMeansList(stack, m, c, |q|);
        assert false;
      }
    }
  }

  // ---------------------------------------------------------------- the scan

  /** Filling in a line or a definition from its setting i down. */
  lemma {:induction false} FilledFirst(stack: seq<Elem>, maybe: set<nat>, m: Matcher, v: Values, states: seq<State>,
                                       i: nat, p: Place, places: Places) returns (places': Places)
    requires i <= |states| && GoodStack(stack, |v|) && GoodStates(states, |v|) && Covered(stack, maybe)
    requires |p| >= 2 && ListAt(stack, m, p) == Some(states) && Entered(stack, m, places, p)
    requires UpTo(stack, m, v, places, p + [i - 1])
    ensures UpTo(stack, m, Filled(stack, maybe, v, states, i), places', p + [-1])
    ensures Kept(places, places')
    decreases Undecided(v), 0, i
  {
    hide Filled, Expanded, UpTo, ListAt, Undecided, GoodStack, GoodStates, Covered, Before, Entered, Kept;
    if i == 0 {
      FilledNone(stack, maybe, v, states);
      places' := places;
      NothingChanged(places);
    } else {
      var st := states[i - 1];
      FilledStep(stack, maybe, v, states, i);
      Listed(stack, m, p, i - 1);
      if v[st.attr] != Unknown {
        MovePast(stack, m, v, places, p, i - 1);
        places' := FilledFirst(stack, maybe, m, v, states, i - 1, p, places);
      } else {
        OneDecided(v, st.attr, st.setto);
        var q, v1 := p + [i - 1], v[st.attr := st.setto];
        var places2 := ExpandedFirst(stack, maybe, m, v, p, i - 1, places);
        MoveOut(stack, m, Expanded(stack, maybe, v1, st.attr), places2, p, i - 1);
        EnteredKept(stack, m, places, places2, p);
        places' := FilledFirst(stack, maybe, m, Expanded(stack, maybe, v1, st.attr), states, i - 1, p, places2);
        KeptTwice(places, places2, places');
      }
    }
  }

  ghost predicate Kept(places: Places, places': Places) {
    |places'| == |places| && forall nr :: 0 <= nr < |places| && places[nr] != [] ==> places'[nr] == places[nr]
  }

  lemma NothingChanged(places: Places)
    ensures Kept(places, places)
  {
  }

  lemma KeptTwice(a: Places, b: Places, c: Places)
    requires Kept(a, b) && Kept(b, c)
    ensures Kept(a, c)
  {
  }

  lemma EnteredKept(stack: seq<Elem>, m: Matcher, places: Places, places': Places, p: Place)
    requires |p| >= 2 && Entered(stack, m, places, p) && Kept(places, places')
    ensures Entered(stack, m, places', p)
  {
    hide StateAt;
  }

  lemma ExpandedStep(stack: seq<Elem>, maybe: set<nat>, v: Values, nr: nat)
    requires nr < |v| && GoodStack(stack, |v|) && Covered(stack, maybe)
    ensures
      if v[nr] == True && FindMacro(stack, nr).Some? then
        var states := FindMacro(stack, nr).value;
        GoodStates(states, |v|) && Expanded(stack, maybe, v, nr) == Filled(stack, maybe, v, states, |states|)
      else Expanded(stack, maybe, v, nr) == v
  {
    hide Filled, FindMacro;
    GoodMacro(stack, nr, |v|);
  }

  lemma DefinitionAt(stack: seq<Elem>, m: Matcher, q: Place)
    requires |q| >= 3 && StateAt(stack, m, q).Some?
    ensures var st := StateAt(stack, m, q).value;
      ListAt(stack, m, q) == if st.setto == True then FindMacro(stack, st.attr) else None
  {
    hide StateAt;
  }

  /** The setting at a of the list is decided, and the macro it turns on is expanded. */
  lemma {:induction false} ExpandedFirst(stack: seq<Elem>, maybe: set<nat>, m: Matcher, v: Values, p: Place, a: nat,
                                         places: Places) returns (places': Places)
    requires GoodStack(stack, |v|) && Covered(stack, maybe)
    requires |p| >= 2 && Entered(stack, m, places, p) && UpTo(stack, m, v, places, p + [a])
    requires StateAt(stack, m, p + [a]).Some?
    requires var st := StateAt(stack, m, p + [a]).value;
      st.attr < |v| && v[st.attr] == Unknown && Undecided(v[st.attr := st.setto]) < Undecided(v)
    ensures var st := StateAt(stack, m, p + [a]).value;
      UpTo(stack, m, Expanded(stack, maybe, v[st.attr := st.setto], st.attr), places', p + [a] + [-1])
    ensures Kept(places, places')
    decreases Undecided(v), 0, 0
  {
    hide Filled, Expanded, UpTo, ListAt, StateAt, Undecided, GoodStack, GoodStates, Covered, Before, Entered, FindMacro;
    var q := p + [a];
    var st := StateAt(stack, m, q).value;
    PlaceOpen(stack, m, v, places, q, st.attr);
    var v1, places1 := v[st.attr := st.setto], places[st.attr := q];
    DefinitionAt(stack, m, q);
    ExpandedStep(stack, maybe, v1, st.attr);
    if st.setto == True && FindMacro(stack, st.attr).Some? {
      var states := FindMacro(stack, st.attr).value;
      Decided(stack, m, v, places, p, a, |states| - 1);
      places' := FilledFirst(stack, maybe, m, v1, states, |states|, q, places1);
    } else {
      Decided(stack, m, v, places, p, a, -1);
      places' := places1;
    }
  }

  lemma PlaceOpen(stack: seq<Elem>, m: Matcher, v: Values, places: Places, q: Place, nr: nat)
    requires UpTo(stack, m, v, places, q) && nr < |v| && v[nr] == Unknown
    ensures |places| == |v| && places[nr] == []
  {
    hide Met, StateAt;
  }

  lemma LineListed(stack: seq<Elem>, m: Matcher, k: nat, i: nat)
    requires k < |stack| && i < |stack[k].attrs|
    ensures ListAt(stack, m, [k, i]) ==
      if Applies(m, stack[k], stack[k].attrs[i]) then Some(stack[k].attrs[i].states) else None
  {
    hide Applies;
  }

  lemma FilledElemStep(stack: seq<Elem>, maybe: set<nat>, m: Matcher, v: Values, e: Elem, i: nat)
    requires i < |e.attrs| && GoodStack(stack, |v|) && GoodElem(e, |v|)
    ensures GoodStates(e.attrs[i].states, |v|)
    ensures var a := e.attrs[i];
      if Applies(m, e, a) then
        var w := Filled(stack, maybe, v, a.states, |a.states|);
        |w| == |v| && FilledElem(stack, maybe, m, v, e, i + 1) == FilledElem(stack, maybe, m, w, e, i)
      else FilledElem(stack, maybe, m, v, e, i + 1) == FilledElem(stack, maybe, m, v, e, i)
  {
    hide Filled, Applies, GoodStack;
    assert GoodLine(e.attrs[i], |v|);
  }

  lemma FileIsGood(stack: seq<Elem>, k: nat, n: nat)
    requires GoodStack(stack, n) && k < |stack|
    ensures GoodElem(stack[k], n)
  {
    hide GoodLine;
  }

  lemma NoMoreLines(stack: seq<Elem>, maybe: set<nat>, m: Matcher, v: Values, e: Elem)
    requires GoodStack(stack, |v|) && GoodElem(e, |v|)
    ensures FilledElem(stack, maybe, m, v, e, 0) == v
  {
  }

  /** One file, from its line i down. */
  lemma {:induction false} ElemFirst(stack: seq<Elem>, maybe: set<nat>, m: Matcher, v: Values, k: nat, i: nat,
                                     places: Places) returns (places': Places)
    requires k < |stack| && i <= |stack[k].attrs| && GoodStack(stack, |v|) && GoodElem(stack[k], |v|)
    requires Covered(stack, maybe) && UpTo(stack, m, v, places, [k, i - 1])
    ensures UpTo(stack, m, FilledElem(stack, maybe, m, v, stack[k], i), places', [k as int, -1])
    decreases i
  {
    hide FilledElem, Filled, UpTo, ListAt, GoodStack, GoodElem, GoodStates, Covered, Before, Entered, Kept, Applies;
    places' := places;
    if i == 0 {
      NoMoreLines(stack, maybe, m, v, stack[k]);
    } else {
      var p := [k, i - 1];
      var a := stack[k].attrs[i - 1];
      FilledElemStep(stack, maybe, m, v, stack[k], i - 1);
      LineListed(stack, m, k, i - 1);
      var w := v;
      if Applies(m, stack[k], a) {
        MoveInto(stack, m, v, places, p, |a.states| - 1);
        LineEntered(stack, m, places, p);
        places' := FilledFirst(stack, maybe, m, v, a.states, |a.states|, p, places);
        w := Filled(stack, maybe, v, a.states, |a.states|);
      } else {
        MoveInto(stack, m, v, places, p, -1);
      }
      assert p == [k] + [i - 1] && [k, i - 2] == [k] + [i - 1 - 1];
      MoveOut(stack, m, w, places', [k], i - 1);
      places' := ElemFirst(stack, maybe, m, w, k, i - 1, places');
    }
  }

  lemma LineEntered(stack: seq<Elem>, m: Matcher, places: Places, p: Place)
    requires |p| == 2
    ensures Entered(stack, m, places, p)
  {
  }

  lemma FilledAllStep(stack: seq<Elem>, maybe: set<nat>, m: Matcher, v: Values, k: nat)
    requires k < |stack| && GoodStack(stack, |v|) && GoodElem(stack[k], |v|)
    ensures var w := FilledElem(stack, maybe, m, v, stack[k], |stack[k].attrs|);
      |w| == |v| && FilledAll(stack, maybe, m, v, k + 1) == FilledAll(stack, maybe, m, w, k)
  {
    hide FilledElem, GoodStack;
  }

  lemma NoMoreFiles(stack: seq<Elem>, maybe: set<nat>, m: Matcher, v: Values)
    requires GoodStack(stack, |v|)
    ensures FilledAll(stack, maybe, m, v, 0) == v
  {
  }

  /** On to the last line of a file. */
  lemma IntoFile(stack: seq<Elem>, m: Matcher, v: Values, places: Places, k: nat)
    requires k < |stack| && UpTo(stack, m, v, places, [k])
    ensures UpTo(stack, m, v, places, [k, |stack[k].attrs| - 1])
  {
    hide Before, UpTo, ListAt, NotAfter, StateAt;
    var q := [k, |stack[k].attrs| - 1];
    assert q == [k] + [|stack[k].attrs| - 1];
    BeforeExtended([k], [|stack[k].attrs| - 1]);
    forall c | Before(c, q) && !Before(c, [k])
      ensures StateAt(stack, m, c).None?
    {
      GapInto(c, [k], |stack[k].attrs| - 1);
      if StateAt(stack, m, c).Some? {
        StateMeansList(stack, m, c, 0);
        assert false;
      }
    }
    MoveFree(stack, m, v, places, [k], q);
  }

  /** Out of a file to the next one. */
  lemma OutOfFile(stack: seq<Elem>, m: Matcher, v: Values, places: Places, k: nat)
    requires UpTo(stack, m, v, places, [k as int, -1])
    ensures UpTo(stack, m, v, places, [k - 1])
  {
    hide Before, UpTo, ListAt, NotAfter, StateAt;
    var last: Place := [k as int, -1];
    assert last == [] + [k as int] + [-1] && [k - 1] == [] + [k - 1];
    StepsForward([], k);
    forall c | Before(c, [k - 1]) && !Before(c, last)
      ensures StateAt(stack, m, c).None?
    {
      GapOut(c, [], k);
      if StateAt(stack, m, c).Some? {
        StateMeansList(stack, m, c, 0);
        assert false;
      }
    }
    MoveFree(stack, m, v, places, last, [k - 1]);
  }

  lemma {:induction false} AllFirst(stack: seq<Elem>, maybe: set<nat>, m: Matcher, v: Values, k: nat, places: Places)
    returns (places': Places)
    requires k <= |stack| && GoodStack(stack, |v|) && Covered(stack, maybe) && UpTo(stack, m, v, places, [k - 1])
    ensures UpTo(stack, m, FilledAll(stack, maybe, m, v, k), places', [-1])
    decreases k
  {
    hide FilledAll, FilledElem, UpTo, GoodStack, GoodElem, Covered;
    if k == 0 {
      NoMoreFiles(stack, maybe, m, v);
      places' := places;
    } else {
      FileIsGood(stack, k - 1, |v|);
      FilledAllStep(stack, maybe, m, v, k - 1);
      IntoFile(stack, m, v, places, k - 1);
      places' := ElemFirst(stack, maybe, m, v, k - 1, |stack[k - 1].attrs|, places);
      var w := FilledElem(stack, maybe, m, v, stack[k - 1], |stack[k - 1].attrs|);
      OutOfFile(stack, m, w, places', k - 1);
      places' := AllFirst(stack, maybe, m, w, k - 1, places');
    }
  }

  lemma NothingYet(stack: seq<Elem>, m: Matcher, n: nat)
    ensures UpTo(stack, m, Blank(n), seq(n, _ => []), [|stack| - 1])
  {
    hide StateAt, NotAfter;
    var places: Places := seq(n, _ => []);
    forall c | Met(stack, m, places, c)
      ensures !Before(c, [|stack| - 1])
    {
      StateMeansList(stack, m, c, 0);
      assert [|stack| - 1][1..] == [];
    }
  }

  lemma AllMet(stack: seq<Elem>, m: Matcher, v: Values, places: Places)
    requires UpTo(stack, m, v, places, [-1])
    ensures FirstWins(stack, m, v, places)
  {
    hide StateAt, NotAfter, Sound;
    forall c | Met(stack, m, places, c)
      ensures NotAfter(places, StateAt(stack, m, c).value.attr, c)
    {
      StateMeansList(stack, m, c, 0);
      assert Before(c, [-1]);
    }
  }

  /** Collecting gives each attribute the first setting that is met, in lines and in macros. */
  lemma CollectedFirst(stack: seq<Elem>, maybe: set<nat>, m: Matcher, n: nat)
    requires GoodStack(stack, n) && Covered(stack, maybe)
    ensures exists places :: FirstWins(stack, m, Collected(stack, maybe, m, n), places)
  {
    hide UpTo, FirstWins, FilledAll, GoodStack, Covered;
    NothingYet(stack, m, n);
    var places := AllFirst(stack, maybe, m, Blank(n), |stack|, seq(n, _ => []));
    AllMet(stack, m, FilledAll(stack, maybe, m, Blank(n), |stack|), places);
    assert FirstWins(stack, m, Collected(stack, maybe, m, n), places);
  }

  // ---------------------------------------------------------------- what this settles

  lemma {:induction false} Earliest(ps: seq<Place>) returns (k: nat)
    requires exists j :: 0 <= j < |ps| && ps[j] != []
    ensures k < |ps| && ps[k] != [] && forall j :: 0 <= j < |ps| && ps[j] != [] ==> !Before(ps[j], ps[k])
  {
    hide Before;
    var last := |ps| - 1;
    var front := ps[..last];
    if j :| 0 <= j < last && ps[j] != [] {
      assert front[j] != [];
      k := Earliest(front);
      assert forall i :: 0 <= i < last ==> front[i] == ps[i];
      BeforeTotal(ps[k], ps[k]);
      BeforeTotal(ps[last], ps[last]);
      if ps[last] != [] && Before(ps[last], ps[k]) {
        forall i | 0 <= i < last && ps[i] != []
          ensures !Before(ps[i], ps[last])
        {
          if Before(ps[i], ps[last]) {
            BeforeTrans(ps[i], ps[last], ps[k]);
          }
        }
        k := last;
      }
    } else {
      k := last;
      BeforeTotal(ps[k], ps[k]);
    }
  }

  ghost predicate Differ(a: Places, b: Places, nr: nat) {
    |a| == |b| && nr < |a| && a[nr] != b[nr]
  }

  /** Where two outcomes agree on all that is earlier, a place of the one is no earlier than that of the other. */
  lemma NoLaterElsewhere(stack: seq<Elem>, m: Matcher, v: Values, places: Places, v': Values, places': Places, nr: nat)
    requires FirstWins(stack, m, v, places) && FirstWins(stack, m, v', places') && |places| == |places'|
    requires nr < |places| && places[nr] != []
    requires forall j: nat :: Differ(places, places', j) && places[j] != [] ==> !Before(places[j], places[nr])
    ensures NotAfter(places', nr, places[nr])
  {
    hide Before, StateAt, ListAt, NotAfter;
    var p := places[nr];
    var q := p[..|p| - 1];
    assert Met(stack, m, places, p);
    StateMeansList(stack, m, p, 0);
    if |q| != 2 {
      var mac := StateAt(stack, m, q).value.attr;
      Through(p, q);
      BeforeExtended(q, p[|q|..]);
      assert !Differ(places, places', mac);
    }
    assert Met(stack, m, places', p);
  }

  /** The rule leaves nothing open: at most one outcome follows it. */
  lemma OneOutcome(stack: seq<Elem>, m: Matcher, v: Values, places: Places, v': Values, places': Places)
    requires FirstWins(stack, m, v, places) && FirstWins(stack, m, v', places') && |v| == |v'|
    ensures v == v' && places == places'
  {
    hide Before, StateAt, Met;
    SamePlaces(stack, m, v, places, v', places');
    assert forall nr :: 0 <= nr < |v| ==> v[nr] == v'[nr];
  }

  lemma SamePlaces(stack: seq<Elem>, m: Matcher, v: Values, places: Places, v': Values, places': Places)
    requires FirstWins(stack, m, v, places) && FirstWins(stack, m, v', places') && |places| == |places'|
    ensures places == places'
  {
    hide Before, FirstWins;
    if nr: nat :| Differ(places, places', nr) {
      var k, one := FirstDifference(places, places', nr);
      if one {
        NoLaterElsewhere(stack, m, v, places, v', places', k);
      } else {
        NoLaterElsewhere(stack, m, v', places', v, places, k);
      }
      assert false;
    }
    forall nr | 0 <= nr < |places|
      ensures places[nr] == places'[nr]
    {
      assert !Differ(places, places', nr);
    }
  }

  /** The earliest place on which two outcomes differ, and in which of the two it is. */
  lemma FirstDifference(places: Places, places': Places, nr: nat) returns (k: nat, one: bool)
    requires Differ(places, places', nr)
    ensures Differ(places, places', k)
    ensures var first := if one then places[k] else places'[k];
      && first != []
      && (forall j: nat :: Differ(places, places', j) && places[j] != [] ==> !Before(places[j], first))
      && (forall j: nat :: Differ(places, places', j) && places'[j] != [] ==> !Before(places'[j], first))
  {
    hide Before;
    var n := |places|;
    var a := seq(n, i requires 0 <= i < n => if places[i] != places'[i] then places[i] else []);
    var b := seq(n, i requires 0 <= i < n => if places[i] != places'[i] then places'[i] else []);
    var ps := a + b;
    assert ps[nr] != [] || ps[n + nr] != [];
    var x := Earliest(ps);
    one := x < n;
    k := if one then x else x - n;
    assert ps[x] == if one then places[k] else places'[k];
    forall j: nat | Differ(places, places', j)
      ensures places[j] != [] ==> !Before(places[j], ps[x])
      ensures places'[j] != [] ==> !Before(places'[j], ps[x])
    {
      assert ps[j] == places[j] && ps[n + j] == places'[j];
    }
  }

  /** The setting x of line i of file k is one of the attribute, and the line applies. */
  ghost predicate SettingAt(stack: seq<Elem>, m: Matcher, k: nat, i: nat, x: nat, nr: nat) {
    LineOf(stack, m, k, i) && x < |stack[k].attrs[i].states| && stack[k].attrs[i].states[x].attr == nr
  }

  ghost predicate NoMacroSets(stack: seq<Elem>, nr: nat) {
    forall mac: nat :: FindMacro(stack, mac).Some? ==> forall st :: st in FindMacro(stack, mac).value ==> st.attr != nr
  }

  /** An attribute that no macro sets has the value of its last setting: in the file nearest the top, there in the last
      line that applies, there in the last place. */
  lemma LastSettingWins(stack: seq<Elem>, m: Matcher, v: Values, places: Places, k: nat, i: nat, x: nat, nr: nat)
    requires FirstWins(stack, m, v, places) && NoMacroSets(stack, nr) && SettingAt(stack, m, k, i, x, nr)
    requires forall k': nat, i': nat, x': nat :: SettingAt(stack, m, k', i', x', nr) ==>
      k' < k || (k' == k && (i' < i || (i' == i && x' <= x)))
    ensures nr < |v| && v[nr] == stack[k].attrs[i].states[x].setto
  {
    hide Before, StateAt, ListAt, Applies, LineOf;
    var c: Place := [k, i, x];
    SettingMet(stack, m, places, k, i, x, nr);
    assert NotAfter(places, nr, c);
    var p := places[nr];
    assert StateAt(stack, m, p) == Some(State(nr, v[nr]));
    InLine(stack, m, p, nr);
    NotLater(p, k, i, x);
    assert p == c;
  }

  lemma NotLater(p: Place, k: nat, i: nat, x: nat)
    requires |p| == 3 && (p == [k, i, x] || Before(p, [k, i, x]))
    requires p[0] < k || (p[0] == k && (p[1] < i || (p[1] == i && p[2] <= x)))
    ensures p == [k, i, x]
  {
    BeforeThree(p, [k, i, x]);
  }

  lemma BeforeThree(p: Place, c: Place)
    requires |p| == 3 && |c| == 3
    ensures Before(p, c) <==> p[0] > c[0] || (p[0] == c[0] && (p[1] > c[1] || (p[1] == c[1] && p[2] > c[2])))
  {
    var p1, c1 := p[1..], c[1..];
    var p2, c2 := p1[1..], c1[1..];
    assert Before(p1, c1) <==> p1[0] > c1[0] || (p1[0] == c1[0] && Before(p2, c2));
    assert Before(p2, c2) <==> p2[0] > c2[0];
  }

  lemma SettingMet(stack: seq<Elem>, m: Matcher, places: Places, k: nat, i: nat, x: nat, nr: nat)
    requires SettingAt(stack, m, k, i, x, nr)
    ensures Met(stack, m, places, [k, i, x]) && StateAt(stack, m, [k, i, x]) == Some(stack[k].attrs[i].states[x])
  {
    hide Applies;
    var c: Place := [k, i, x];
    assert c[..2] == [k, i];
    LineListed(stack, m, k, i);
  }

  lemma InLine(stack: seq<Elem>, m: Matcher, p: Place, nr: nat)
    requires StateAt(stack, m, p).Some? && StateAt(stack, m, p).value.attr == nr && NoMacroSets(stack, nr)
    ensures |p| == 3 && p[0] >= 0 && p[1] >= 0 && p[2] >= 0 && SettingAt(stack, m, p[0], p[1], p[2], nr)
  {
    var q := p[..|p| - 1];
    assert ListAt(stack, m, q).Some?;
  }

  /** Collecting follows the last setting. */
  lemma CollectedLast(stack: seq<Elem>, maybe: set<nat>, m: Matcher, n: nat, k: nat, i: nat, x: nat, nr: nat)
    requires GoodStack(stack, n) && Covered(stack, maybe) && NoMacroSets(stack, nr) && SettingAt(stack, m, k, i, x, nr)
    requires forall k': nat, i': nat, x': nat :: SettingAt(stack, m, k', i', x', nr) ==>
      k' < k || (k' == k && (i' < i || (i' == i && x' <= x)))
    ensures nr < |Collected(stack, maybe, m, n)|
    ensures Collected(stack, maybe, m, n)[nr] == stack[k].attrs[i].states[x].setto
  {
    hide Collected, FirstWins, GoodStack, Covered, NoMacroSets, SettingAt;
    CollectedFirst(stack, maybe, m, n);
    var places :| FirstWins(stack, m, Collected(stack, maybe, m, n), places);
    LastSettingWins(stack, m, Collected(stack, maybe, m, n), places, k, i, x, nr);
  }

  // ---------------------------------------------------------------- which definition

  ghost predicate MacroAt(stack: seq<Elem>, k: nat, i: nat, nr: nat) {
    k < |stack| && i < |stack[k].attrs| && stack[k].attrs[i].Macro? && stack[k].attrs[i].attr == nr
  }

  /** The definition found is the last of the file nearest the top that has one, and one is found when there is any. */
  lemma {:induction false} NearestMacro(stack: seq<Elem>, nr: nat) returns (k: nat, i: nat)
    ensures FindMacro(stack, nr).None? ==> forall k': nat, i': nat :: !MacroAt(stack, k', i', nr)
    ensures FindMacro(stack, nr).Some? ==>
      && MacroAt(stack, k, i, nr) && FindMacro(stack, nr).value == stack[k].attrs[i].states
      && forall k': nat, i': nat :: MacroAt(stack, k', i', nr) ==> k' < k || (k' == k && i' <= i)
  {
    k, i := 0, 0;
    if stack != [] {
      var last := |stack| - 1;
      i := LastMacro(stack[last].attrs, nr);
      if MacroIn(stack[last].attrs, nr).Some? {
        k := last;
      } else {
        k, i := NearestMacro(stack[..last], nr);
        forall k': nat, i': nat | MacroAt(stack, k', i', nr)
          ensures k' < last && MacroAt(stack[..last], k', i', nr)
        {
        }
      }
    }
  }

  lemma {:induction false} LastMacro(attrs: seq<MatchAttr>, nr: nat) returns (i: nat)
    ensures MacroIn(attrs, nr).None? ==> forall j :: 0 <= j < |attrs| ==> !(attrs[j].Macro? && attrs[j].attr == nr)
    ensures MacroIn(attrs, nr).Some? ==>
      && i < |attrs| && attrs[i].Macro? && attrs[i].attr == nr && MacroIn(attrs, nr).value == attrs[i].states
      && forall j :: i < j < |attrs| ==> !(attrs[j].Macro? && attrs[j].attr == nr)
  {
    i := 0;
    if attrs != [] {
      var last := |attrs| - 1;
      if attrs[last].Macro? && attrs[last].attr == nr {
        i := last;
      } else {
        i := LastMacro(attrs[..last], nr);
      }
    }
  }
}
