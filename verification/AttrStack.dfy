/** The stack of attribute files kept between lookups (attr.c, prepare_attr_stack). */
module AttrStack {
  import opened Basics

  datatype Value = Unknown | True | False | Unset | Text(text: string)

  datatype State = State(attr: nat, setto: Value)

  /** One line of a file: a macro's definition, or a pattern and what it decides. */
  datatype MatchAttr = Macro(attr: nat, states: seq<State>) | Pattern(pat: string, states: seq<State>)

  /** One file; only those of directories have an origin. */
  datatype Elem = Elem(origin: Option<string>, attrs: seq<MatchAttr>)

  /** Where attributes come from: the built-in and configured files, the directories, info/attributes. */
  datatype Sources = Sources(builtin: seq<Elem>, dirs: bool, read: string -> seq<MatchAttr>, info: Elem)

  ghost predicate Proper(src: Sources) {
    && src.builtin != [] && src.info.origin == None
    && forall i :: 0 <= i < |src.builtin| ==> src.builtin[i].origin == None
  }

  /** path[..dirlen] is the directory part; paths do not start with a slash. */
  predicate DirPart(path: string, dirlen: nat) {
    dirlen <= |path| && (dirlen > 0 ==> dirlen < |path| && path[dirlen] == '/')
  }

  /** The root and the directories above path[..k], the outermost first. */
  function Dirs(src: Sources, path: string, k: nat): (r: seq<Elem>)
    requires k <= |path|
    ensures r != []
  {
    if k == 0 then [Elem(Some(""), src.read(""))]
    else if k < |path| && path[k] == '/' then Dirs(src, path, k - 1) + [Elem(Some(path[..k]), src.read(path[..k]))]
    else Dirs(src, path, k - 1)
  }

  /** The stack for a path, built from nothing; the top is last. */
  function Rebuilt(src: Sources, path: string, dirlen: nat): seq<Elem>
    requires dirlen <= |path|
  {
    src.builtin + (if src.dirs then Dirs(src, path, dirlen) else []) + [src.info]
  }

  /** The origins on the stack are the root and, in order, every directory above the file. */
  lemma {:induction false} OriginsAreAncestors(src: Sources, path: string, k: nat, i: nat)
    requires k <= |path| && i < |Dirs(src, path, k)|
    ensures
      var d := Dirs(src, path, k)[i];
      && d.origin.Some? && d.attrs == src.read(d.origin.value)
      && d.origin.value <= path[..k] && (d.origin.value == "" <==> i == 0)
      && (d.origin.value == "" || (|d.origin.value| < |path| && path[|d.origin.value|] == '/'))
      && (i > 0 ==>
           var above := Dirs(src, path, k)[i - 1].origin;
           above.Some? && |above.value| < |d.origin.value|)
  {
    if k > 0 {
      var below := Dirs(src, path, k - 1);
      if i < |below| {
        OriginsAreAncestors(src, path, k - 1, i);
        assert path[..k - 1] <= path[..k];
      } else {
        OriginsAreAncestors(src, path, k - 1, |below| - 1);
      }
    }
  }

  lemma {:induction false} EveryAncestorHasOrigin(src: Sources, path: string, k: nat, at: nat)
    requires at <= k <= |path| && (at == 0 || (at < |path| && path[at] == '/'))
    ensures Elem(Some(path[..at]), src.read(path[..at])) in Dirs(src, path, k)
  {
    if k > at {
      EveryAncestorHasOrigin(src, path, k - 1, at);
    } else if k == 0 {
      assert path[..0] == "";
    }
  }

  /** Where the path does not branch off, the directories are the same. */
  lemma {:induction false} SharedDirs(src: Sources, p: string, q: string, k: nat)
    requires k <= |p| && k <= |q| && p[..k] == q[..k]
    requires k == 0 || (k < |p| && k < |q| && p[k] == '/' && q[k] == '/')
    ensures Dirs(src, p, k) == Dirs(src, q, k)
  {
    if k > 0 {
      SharedBelow(src, p, q, k - 1);
    }
  }

  lemma {:induction false} SharedBelow(src: Sources, p: string, q: string, k: nat)
    requires k < |p| && k < |q| && p[..k + 1] == q[..k + 1]
    ensures Dirs(src, p, k) == Dirs(src, q, k)
  {
    assert p[..k] == p[..k + 1][..k] == q[..k + 1][..k] == q[..k];
    assert p[k] == p[..k + 1][k] == q[..k + 1][k] == q[k];
    if k > 0 {
      SharedBelow(src, p, q, k - 1);
    }
  }

  /** A position a directory on the stack can end at. */
  predicate Stop(path: string, k: nat) {
    k == 0 || (k < |path| && path[k] == '/')
  }

  /** The file of a directory above the path. */
  ghost predicate Ancestor(src: Sources, path: string, dirlen: nat, e: Elem) {
    e.origin.Some? && e.attrs == src.read(e.origin.value) && |e.origin.value| <= dirlen <= |path|
    && e.origin.value <= path && Stop(path, |e.origin.value|)
  }

  /** The stack as it has to be: info on top, the built-in and configured files at the bottom, and between them the root
      and every directory above the path, the deeper ones nearer the top; no directories in a bare repository. */
  ghost predicate Layered(src: Sources, stack: seq<Elem>, path: string, dirlen: nat)
    requires dirlen <= |path|
  {
    var n := |src.builtin|;
    && n < |stack| && stack[..n] == src.builtin && stack[|stack| - 1] == src.info
    && var dirs := stack[n..|stack| - 1]; if src.dirs then AncestorsOf(src, dirs, path, dirlen) else dirs == []
  }

  ghost predicate AncestorsOf(src: Sources, dirs: seq<Elem>, path: string, dirlen: nat)
    requires dirlen <= |path|
  {
    && (forall i :: 0 <= i < |dirs| ==> Ancestor(src, path, dirlen, dirs[i]))
    && (forall i, j :: 0 <= i < j < |dirs| ==> |dirs[i].origin.value| < |dirs[j].origin.value|)
    && (forall at :: 0 <= at <= dirlen && Stop(path, at) ==> Elem(Some(path[..at]), src.read(path[..at])) in dirs)
  }

  lemma {:induction false} DirsDeeper(src: Sources, path: string, k: nat, i: nat, j: nat)
    requires k <= |path| && i < j < |Dirs(src, path, k)|
    ensures var d := Dirs(src, path, k);
      d[i].origin.Some? && d[j].origin.Some? && |d[i].origin.value| < |d[j].origin.value|
    decreases j
  {
    OriginsAreAncestors(src, path, k, j);
    if i < j - 1 {
      DirsDeeper(src, path, k, i, j - 1);
    }
  }

  lemma DirsAreAncestors(src: Sources, path: string, dirlen: nat)
    requires dirlen <= |path|
    ensures AncestorsOf(src, Dirs(src, path, dirlen), path, dirlen)
  {
    hide Dirs;
    var d := Dirs(src, path, dirlen);
    forall i | 0 <= i < |d|
      ensures Ancestor(src, path, dirlen, d[i])
    {
      OriginsAreAncestors(src, path, dirlen, i);
    }
    forall i, j | 0 <= i < j < |d|
      ensures |d[i].origin.value| < |d[j].origin.value|
    {
      DirsDeeper(src, path, dirlen, i, j);
    }
    forall at | 0 <= at <= dirlen && Stop(path, at)
      ensures Elem(Some(path[..at]), src.read(path[..at])) in d
    {
      EveryAncestorHasOrigin(src, path, dirlen, at);
    }
  }

  lemma RebuiltIsLayered(src: Sources, path: string, dirlen: nat)
    requires dirlen <= |path|
    ensures Layered(src, Rebuilt(src, path, dirlen), path, dirlen)
  {
    hide Dirs, AncestorsOf;
    var stack, n := Rebuilt(src, path, dirlen), |src.builtin|;
    DirsAreAncestors(src, path, dirlen);
    assert stack[..n] == src.builtin;
    assert stack[n..|stack| - 1] == if src.dirs then Dirs(src, path, dirlen) else [];
  }

  lemma {:induction false} StopBelow(src: Sources, path: string, k: nat) returns (j: nat)
    requires k <= |path|
    ensures j <= k && Stop(path, j) && Dirs(src, path, j) == Dirs(src, path, k)
  {
    if Stop(path, k) {
      j := k;
    } else {
      j := StopBelow(src, path, k - 1);
    }
  }

  lemma {:induction false} NoneBetween(src: Sources, path: string, j: nat, k: nat)
    requires j <= k <= |path| && forall i :: j < i <= k ==> !Stop(path, i)
    ensures Dirs(src, path, k) == Dirs(src, path, j)
  {
    if j < k {
      assert !Stop(path, k);
      NoneBetween(src, path, j, k - 1);
    }
  }

  lemma DirsStop(src: Sources, path: string, k: nat)
    requires 0 < k <= |path| && Stop(path, k)
    ensures Dirs(src, path, k) == Dirs(src, path, k - 1) + [Elem(Some(path[..k]), src.read(path[..k]))]
  {
  }

  lemma SomeDirs(src: Sources, path: string, k: nat)
    requires k <= |path|
    ensures Dirs(src, path, k) != []
  {
  }

  lemma TopIs(src: Sources, path: string, at: nat)
    requires at <= |path| && Stop(path, at)
    ensures Dirs(src, path, at)[|Dirs(src, path, at)| - 1] == Elem(Some(path[..at]), src.read(path[..at]))
  {
    assert path[..0] == "";
  }

  lemma PoppedOne(src: Sources, path: string, at: nat, stack: seq<Elem>) returns (j: nat)
    requires 0 < at <= |path| && Stop(path, at) && stack == src.builtin + Dirs(src, path, at)
    ensures j < at && Stop(path, j) && stack[..|stack| - 1] == src.builtin + Dirs(src, path, j)
    ensures |stack| > 1 && stack[|stack| - 2] == Elem(Some(path[..j]), src.read(path[..j]))
  {
    j := StopBelow(src, path, at - 1);
    TopIs(src, path, j);
    assert Dirs(src, path, at) == Dirs(src, path, j) + [Elem(Some(path[..at]), src.read(path[..at]))];
  }

  class AttrStack {
    const src: Sources
    var stack: seq<Elem>

    constructor (src: Sources)
      requires Proper(src)
      ensures Valid() && this.src == src
    {
      this.src, stack := src, [];
    }

    /** Between lookups: nothing, or what the last lookup left. */
    ghost predicate Valid()
      reads this
    {
      && Proper(src)
      && (stack == []
          || exists path: string, dirlen: nat :: DirPart(path, dirlen) && stack == Rebuilt(src, path, dirlen))
    }

    method BootstrapAttrStack()
      requires Valid()
      modifies this
      ensures Valid() && stack != [] && (old(stack) != [] ==> stack == old(stack))
    {
      if stack != [] {
        return;
      }
      stack := src.builtin;
      if src.dirs {
        stack := stack + [Elem(Some(""), src.read(""))];
      }
      stack := stack + [src.info];
      assert DirPart("", 0) && stack == Rebuilt(src, "", 0);
    }

    /** Whatever was looked up before, the stack is what building it for this path gives. */
    method PrepareAttrStack(path: string, dirlen: nat)
      requires Valid() && DirPart(path, dirlen)
      modifies this
      ensures Valid() && stack == Rebuilt(src, path, dirlen)
      ensures Layered(src, stack, path, dirlen)
    {
      RebuiltIsLayered(src, path, dirlen);
      BootstrapAttrStack();
      ghost var was: string, wasLen: nat :| DirPart(was, wasLen) && stack == Rebuilt(src, was, wasLen);
      var info := stack[|stack| - 1];
      stack := stack[..|stack| - 1];
      ghost var k := PopOthers(path, dirlen, was, wasLen);
      if src.dirs {
        PushDirs(path, dirlen, k);
      }
      stack := stack + [info];
    }

    /** Pops directories that do not lead to the path. */
    method PopOthers(path: string, dirlen: nat, ghost was: string, ghost wasLen: nat) returns (ghost at: nat)
      requires Proper(src) && DirPart(path, dirlen) && wasLen <= |was|
      requires stack == src.builtin + if src.dirs then Dirs(src, was, wasLen) else []
      modifies this
      ensures if src.dirs then at <= dirlen && Stop(path, at) && stack == src.builtin + Dirs(src, path, at)
              else stack == src.builtin
    {
      at := StopBelow(src, was, wasLen);
      TopIs(src, was, at);
      while stack[|stack| - 1].origin.Some?
        invariant at <= |was| && Stop(was, at) && stack != []
        invariant stack == src.builtin + if src.dirs then Dirs(src, was, at) else []
        invariant src.dirs ==> stack[|stack| - 1] == Elem(Some(was[..at]), src.read(was[..at]))
        decreases |stack|
      {
        var origin := stack[|stack| - 1].origin.value;
        assert src.dirs && origin == was[..at];
        if |origin| <= dirlen && origin == path[..|origin|] && (origin == "" || path[|origin|] == '/') {
          SharedDirs(src, was, path, at);
          return;
        }
        ghost var before := stack;
        stack := stack[..|stack| - 1];
        at := PoppedOne(src, was, at, before);
      }
    }

    /** The end of the next directory name. */
    method NextStop(path: string, len: nat, dirlen: nat) returns (cp: nat)
      requires len < dirlen && DirPart(path, dirlen)
      ensures len < cp <= dirlen && (cp == dirlen || path[cp] == '/')
      ensures forall i :: len < i < cp ==> !Stop(path, i)
    {
      cp := len + 1;
      while cp < dirlen && path[cp] != '/'
        invariant len < cp <= dirlen && forall i :: len < i < cp ==> !Stop(path, i)
      {
        cp := cp + 1;
      }
    }

    /** Pushes the directories below the one on top. */
    method PushDirs(path: string, dirlen: nat, ghost start: nat)
      requires src.dirs && DirPart(path, dirlen) && start <= dirlen && Stop(path, start)
      requires stack == src.builtin + Dirs(src, path, start)
      modifies this
      ensures stack == src.builtin + Dirs(src, path, dirlen)
    {
      hide Dirs;
      ghost var at := start;
      while true
        invariant at <= dirlen && Stop(path, at) && stack == src.builtin + Dirs(src, path, at)
        decreases dirlen - at
      {
        TopIs(src, path, at);
        SomeDirs(src, path, at);
        assert stack[|stack| - 1] == Dirs(src, path, at)[|Dirs(src, path, at)| - 1];
        var len := |stack[|stack| - 1].origin.value|;
        if dirlen <= len {
          break;
        }
        var cp := NextStop(path, len, dirlen);
        NoneBetween(src, path, at, cp - 1);
        DirsStop(src, path, cp);
        stack := stack + [Elem(Some(path[..cp]), src.read(path[..cp]))];
        at := cp;
      }
    }
  }
}
