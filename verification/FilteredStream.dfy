/** Reading through a filter (streaming.c, the filtered stream): whatever sizes the upstream and the
    reader choose, the reader gets the whole conversion. */
module FilteredStream {
  import opened StreamFilter
  import opened Cascade

  const STREAM_BUFFER: Positive := 16384

  /** The upstream's remaining reads, each non-empty and at most a buffer long. */
  function Rest(chunks: seq<string>): string {
    if chunks == [] then "" else chunks[0] + Rest(chunks[1..])
  }

  ghost predicate Readable(chunks: seq<string>) {
    forall i :: 0 <= i < |chunks| ==> 0 < |chunks[i]| <= STREAM_BUFFER
  }

  lemma NextRead(chunks: seq<string>)
    requires Readable(chunks)
    ensures if chunks == [] then Rest(chunks) == ""
            else Rest(chunks) == chunks[0] + Rest(chunks[1..]) && chunks[0] != "" && Readable(chunks[1..])
  {
  }

  /** Input consumed by the filter leaves the buffer. */
  lemma Taken(consumed: string, ibuf: string, iPtr: nat, left: nat, rest: string)
    requires iPtr + left <= |ibuf|
    ensures consumed + ibuf[iPtr..][..|ibuf| - iPtr - left] + ibuf[|ibuf| - left..] + rest ==
      consumed + ibuf[iPtr..] + rest
    ensures |ibuf[iPtr..]| == |ibuf| - iPtr
  {
    assert ibuf[iPtr..][..|ibuf| - iPtr - left] + ibuf[|ibuf| - left..] == ibuf[iPtr..];
  }

  class Stream<A(!new), B(!new)> {
    const filter: CascadeFilter<A, B>
    const broken: bool
    var upstream: seq<string>
    var ibuf: string
    var iPtr: nat
    const obuf: array<char>
    var oPtr: nat
    var oEnd: nat
    var inputFinished: bool

    ghost const content: string
    ghost var handed: string

    constructor (filter: CascadeFilter<A, B>, upstream: seq<string>, broken: bool)
      requires filter.Valid(false) && filter.consumed == filter.emitted == "" && Readable(upstream)
      ensures Valid() && fresh(obuf) && this.filter == filter && this.broken == broken && content == Rest(upstream)
      ensures handed == ""
    {
      this.filter, this.upstream, this.broken := filter, upstream, broken;
      ibuf, iPtr, oPtr, oEnd, inputFinished := "", 0, 0, 0, false;
      obuf := new char[STREAM_BUFFER];
      content, handed := Rest(upstream), "";
    }

    ghost predicate Valid()
      reads this, filter, filter.buf, obuf
    {
      && obuf != filter.buf && filter.Valid(inputFinished) && Readable(upstream)
      && iPtr <= |ibuf| && oPtr <= oEnd <= obuf.Length == STREAM_BUFFER
      && filter.consumed + ibuf[iPtr..] + Rest(upstream) == content
      && filter.emitted == handed + obuf[oPtr..oEnd]
      && (inputFinished ==> !broken && iPtr == |ibuf| && upstream == [])
    }

    ghost function Whole(): string
      reads this, filter
    {
      filter.q.whole(filter.p.whole(content))
    }

    method Read(sz: nat) returns (ok: bool, out: string)
      requires Valid()
      modifies this, filter, filter.buf, obuf
      ensures filter.NeverFails() && !broken ==> ok
      ensures ok ==> Valid() && |out| <= sz && handed == old(handed) + out
      ensures ok && |out| < sz ==> !broken && handed == Whole()
    {
      hide CascadeFilter.Valid, CascadeFilter.NeverFails, Rest, Readable;
      ok, out := true, "";
      while |out| < sz
        invariant Valid() && |out| <= sz && handed == old(handed) + out
        decreases sz - |out|, |upstream|, !inputFinished, |ibuf| - iPtr, oPtr == oEnd
      {
        if oPtr < oEnd {
          out := HandOver(sz, out);
          continue;
        }
        if iPtr < |ibuf| {
          ok := FeedFilter();
          if !ok {
            return;
          }
          continue;
        }
        if inputFinished {
          ok := DrainFilter();
          if !ok {
            return;
          }
          if oEnd == 0 {
            break;
          }
          continue;
        }
        ok := RefillInput();
        if !ok {
          return;
        }
      }
    }

    /** Filtered output goes to the reader. */
    method HandOver(sz: nat, out: string) returns (more: string)
      requires Valid() && oPtr < oEnd && |out| < sz
      modifies this`handed, this`oPtr
      ensures Valid() && |out| < |more| <= sz && out <= more && handed == old(handed) + more[|out|..]
    {
      hide CascadeFilter.Valid, Rest, Readable;
      var toMove := if sz - |out| < oEnd - oPtr then sz - |out| else oEnd - oPtr;
      assert obuf[oPtr..oEnd] == obuf[oPtr..oPtr + toMove] + obuf[oPtr + toMove..oEnd];
      more := out + obuf[oPtr..oPtr + toMove];
      handed := handed + obuf[oPtr..oPtr + toMove];
      oPtr := oPtr + toMove;
    }

    method FeedFilter() returns (ok: bool)
      requires Valid() && oPtr == oEnd && iPtr < |ibuf|
      modifies this`iPtr, this`oPtr, this`oEnd, filter, filter.buf, obuf
      ensures filter.NeverFails() ==> ok
      ensures ok ==> Valid() && iPtr >= old(iPtr) && (iPtr > old(iPtr) || oPtr < oEnd)
    {
      hide CascadeFilter.Valid, CascadeFilter.NeverFails, Rest, Readable;
      assert filter.emitted == handed by {
        assert obuf[oPtr..oEnd] == "" && handed + "" == handed;
      }
      oPtr, oEnd := 0, 0;
      var left, spare;
      ok, left, spare := filter.Filter(Feed(ibuf[iPtr..]), obuf, 0, STREAM_BUFFER);
      if ok {
        Taken(old(filter.consumed), ibuf, iPtr, left, Rest(upstream));
        iPtr := |ibuf| - left;
        assert filter.consumed + ibuf[iPtr..] + Rest(upstream) == content;
        oEnd := STREAM_BUFFER - spare;
      }
    }

    method DrainFilter() returns (ok: bool)
      requires Valid() && oPtr == oEnd && inputFinished
      modifies this`oPtr, this`oEnd, filter, filter.buf, obuf
      ensures filter.NeverFails() ==> ok
      ensures ok ==> Valid() && oPtr == 0 && (oEnd == 0 ==> handed == Whole())
    {
      hide CascadeFilter.Valid, CascadeFilter.NeverFails, Rest, Readable;
      NextRead(upstream);
      assert obuf[oPtr..oEnd] == "" && ibuf[iPtr..] == "";
      assert filter.consumed + "" + "" == filter.consumed == content;
      assert handed + "" == handed == filter.emitted;
      oPtr, oEnd := 0, 0;
      var left, spare;
      ok, left, spare := filter.Filter(Drain, obuf, 0, STREAM_BUFFER);
      if ok {
        oEnd := STREAM_BUFFER - spare;
      }
    }

    /** The next read of the upstream, or the end of the input, or of all reading when it is broken. */
    method RefillInput() returns (ok: bool)
      requires Valid() && oPtr == oEnd && iPtr == |ibuf| && !inputFinished
      modifies this`ibuf, this`iPtr, this`oPtr, this`oEnd, this`upstream, this`inputFinished
      ensures Valid() && oPtr == oEnd && (!broken ==> ok)
      ensures ok ==> |upstream| < |old(upstream)| || (upstream == old(upstream) && inputFinished)
    {
      hide CascadeFilter.Valid, CascadeFilter.NeverFails, Rest, Readable;
      NextRead(upstream);
      assert obuf[oPtr..oEnd] == "" && ibuf[iPtr..] == "";
      oPtr, oEnd, iPtr, ibuf := 0, 0, 0, "";
      if upstream != [] {
        ibuf, upstream := upstream[0], upstream[1..];
        return true;
      }
      if broken {
        return false;
      }
      filter.Drainable();
      inputFinished := true;
      return true;
    }
  }
}
