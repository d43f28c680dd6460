/** Two streaming filters joined by a buffer (convert.c, cascade_filter_fn). */
module Cascade {
  import opened StreamFilter

  const FILTER_BUFFER: Positive := 1024

  // ---------------------------------------------------------------- what the two states say together

  /** While input still comes: one has put out what two consumed and what is queued for it. */
  ghost predicate Joined<A, B>(p: Promise<A>, q: Promise<B>, first: A, second: B, queue: string,
                               consumed: string, middle: string, emitted: string) {
    Opened(p, first, consumed, middle + queue) && Opened(q, second, middle, emitted)
  }

  /** While draining: two is fed until one is empty, and drained after that. */
  ghost predicate Emptying<A, B>(p: Promise<A>, q: Promise<B>, first: A, second: B, queue: string,
                                 consumed: string, middle: string, emitted: string) {
    && Closing(p, first, consumed, middle + queue)
    && (Opened(q, second, middle, emitted)
        || (queue == "" && middle == p.whole(consumed) && Closing(q, second, middle, emitted)))
  }

  ghost predicate Running<A, B>(drain: bool, p: Promise<A>, q: Promise<B>, first: A, second: B, queue: string,
                                consumed: string, middle: string, emitted: string) {
    if drain then Emptying(p, q, first, second, queue, consumed, middle, emitted)
    else Joined(p, q, first, second, queue, consumed, middle, emitted)
  }

  ghost predicate BothKeep<A(!new), B(!new)>(one: Filter<A>, two: Filter<B>, p: Promise<A>, q: Promise<B>) {
    Keeps(one, p) && Keeps(two, q)
  }

  /** Two takes from the queue. */
  lemma QueueFed<A(!new), B(!new)>(one: Filter<A>, two: Filter<B>, p: Promise<A>, q: Promise<B>, drain: bool,
                                   first: A, second: B, queue: string, room: Positive, consumed: string,
                                   middle: string, emitted: string)
    requires BothKeep(one, two, p, q) && queue != ""
    requires Running(drain, p, q, first, second, queue, consumed, middle, emitted)
    ensures
      var r := two.step(second, Feed(queue), room);
      r.Reply? ==>
        && r.used <= |queue| && |r.out| <= room && r.used + |r.out| > 0
        && Running(drain, p, q, first, r.state, queue[r.used..], consumed, middle + queue[..r.used], emitted + r.out)
  {
    assert FedWell(two, q, second, queue, room, middle, emitted);
    var r := two.step(second, Feed(queue), room);
    if r.Reply? {
      assert middle + queue == middle + queue[..r.used] + queue[r.used..];
    }
  }

  /** One is fed from upstream into the empty buffer. */
  lemma UpstreamFed<A(!new), B(!new)>(one: Filter<A>, two: Filter<B>, p: Promise<A>, q: Promise<B>, first: A, second: B,
                                      data: string, consumed: string, middle: string, emitted: string)
    requires BothKeep(one, two, p, q) && data != ""
    requires Joined(p, q, first, second, "", consumed, middle, emitted)
    ensures
      var r := one.step(first, Feed(data), FILTER_BUFFER);
      r.Reply? ==>
        && r.used <= |data| && |r.out| <= FILTER_BUFFER && r.used + |r.out| > 0
        && Joined(p, q, r.state, second, r.out, consumed + data[..r.used], middle, emitted)
  {
    assert middle + "" == middle;
    assert FedWell(one, p, first, data, FILTER_BUFFER, consumed, middle);
  }

  /** One is drained into the empty buffer. */
  lemma FirstDrained<A(!new), B(!new)>(one: Filter<A>, two: Filter<B>, p: Promise<A>, q: Promise<B>, first: A,
                                       second: B, consumed: string, middle: string, emitted: string)
    requires BothKeep(one, two, p, q)
    requires Emptying(p, q, first, second, "", consumed, middle, emitted)
    ensures
      var r := one.step(first, Drain, FILTER_BUFFER);
      r.Reply? ==>
        && |r.out| <= FILTER_BUFFER
        && Emptying(p, q, r.state, second, r.out, consumed, middle, emitted)
        && (r.out == "" ==> middle == p.whole(consumed))
  {
    assert middle + "" == middle;
    assert DrainedWell(one, p, first, FILTER_BUFFER, consumed, middle);
    var r := one.step(first, Drain, FILTER_BUFFER);
    if r.Reply? && !Opened(q, second, middle, emitted) {
      assert PutOut(p, r.state, consumed, middle + r.out);
      assert middle + r.out <= p.whole(consumed) == middle;
      assert r.out == "";
    }
  }

  /** Two is drained once one is empty. */
  lemma SecondDrained<A(!new), B(!new)>(one: Filter<A>, two: Filter<B>, p: Promise<A>, q: Promise<B>, first: A,
                                        second: B, room: Positive, consumed: string, middle: string, emitted: string)
    requires BothKeep(one, two, p, q) && middle == p.whole(consumed)
    requires Emptying(p, q, first, second, "", consumed, middle, emitted)
    ensures
      var r := two.step(second, Drain, room);
      r.Reply? ==>
        && |r.out| <= room
        && Emptying(p, q, first, r.state, "", consumed, middle, emitted + r.out)
        && (r.out == "" ==> emitted == q.whole(p.whole(consumed)))
  {
    assert PutOut(q, second, middle, emitted);
    assert DrainedWell(two, q, second, room, middle, emitted);
  }

  // ---------------------------------------------------------------- the filter

  method CopyTo(src: string, dst: array<char>, at: nat)
    requires at + |src| <= dst.Length
    modifies dst
    ensures dst[at..at + |src|] == src
    ensures dst[..at] == old(dst[..at]) && dst[at + |src|..] == old(dst[at + |src|..])
  {
    forall i | 0 <= i < |src| {
      dst[at + i] := src[i];
    }
  }

  class CascadeFilter<A(!new), B(!new)> {
    const one: Filter<A>
    const two: Filter<B>
    var first: A
    var second: B
    const buf: array<char>
    var ptr: nat
    var end: nat

    ghost const p: Promise<A>
    ghost const q: Promise<B>
    ghost var consumed: string
    ghost var middle: string
    ghost var emitted: string

    constructor (one: Filter<A>, two: Filter<B>, ghost p: Promise<A>, ghost q: Promise<B>)
      requires BothKeep(one, two, p, q)
      ensures Valid(false) && fresh(buf)
      ensures this.p == p && this.q == q && consumed == emitted == ""
    {
      this.one, this.two, this.p, this.q := one, two, p, q;
      first, second := one.start, two.start;
      buf := new char[FILTER_BUFFER];
      ptr, end := 0, 0;
      consumed, middle, emitted := "", "", "";
    }

    /** Between calls; drain says whether the input is known to be at its end. */
    ghost predicate Valid(drain: bool)
      reads this, buf
    {
      && ptr <= end <= buf.Length == FILTER_BUFFER && BothKeep(one, two, p, q)
      && Running(drain, p, q, first, second, buf[ptr..end], consumed, middle, emitted)
    }

    /** What one may still put out before it takes more input. */
    ghost function Owed(): int
      reads this, buf
    {
      if ptr <= end <= buf.Length then |p.whole(consumed)| - |middle| - (end - ptr) else 0
    }

    ghost predicate NeverFails() {
      StreamFilter.NeverFails(one) && StreamFilter.NeverFails(two)
    }

    lemma Drainable()
      requires Valid(false)
      ensures Valid(true)
    {
      assert PutOut(p, first, consumed, middle + buf[ptr..end]);
    }

    /** Two is fed from the queue. */
    method StepTwo(drain: bool, room: Positive) returns (r: Reply<B>)
      requires Valid(drain) && ptr < end
      modifies this
      ensures NeverFails() ==> r.Reply?
      ensures r.Reply? ==>
        && Valid(drain) && |r.out| <= room && emitted == old(emitted) + r.out
        && consumed == old(consumed) && Owed() == old(Owed())
        && end - ptr - |r.out| < old(end - ptr) && end - ptr <= old(end - ptr)
    {
      ghost var queue := buf[ptr..end];
      QueueFed(one, two, p, q, drain, first, second, queue, room, consumed, middle, emitted);
      r := two.step(second, Feed(buf[ptr..end]), room);
      assert NeverFails() ==> Answers(two, second, Feed(buf[ptr..end]), room);
      if r.Reply? {
        second := r.state;
        middle := middle + queue[..r.used];
        emitted := emitted + r.out;
        ptr := ptr + r.used;
        assert buf[ptr..end] == queue[r.used..];
      }
    }

    /** The buffer takes what one put out. */
    method Refill(out: string)
      requires ptr == end && buf.Length == FILTER_BUFFER && |out| <= FILTER_BUFFER
      modifies this`ptr, this`end, buf
      ensures 0 == ptr <= end == |out| && buf[ptr..end] == out
    {
      CopyTo(out, buf, 0);
      ptr, end := 0, |out|;
    }

    /** One is fed from upstream, from data[pos..]. */
    method StepOne(data: string, pos: nat, ghost was: string) returns (ok: bool, next: nat)
      requires Valid(false) && ptr == end && pos < |data|
      requires consumed == was + data[..pos]
      modifies this, buf
      ensures NeverFails() ==> ok
      ensures ok ==>
        && Valid(false) && pos <= next <= |data| && consumed == was + data[..next] && emitted == old(emitted)
        && Owed() >= 0 && (next == pos ==> Owed() < old(Owed()))
    {
      assert buf[ptr..end] == "";
      UpstreamFed(one, two, p, q, first, second, data[pos..], consumed, middle, emitted);
      var r := one.step(first, Feed(data[pos..]), FILTER_BUFFER);
      assert NeverFails() ==> Answers(one, first, Feed(data[pos..]), FILTER_BUFFER);
      ok, next := r.Reply?, pos;
      if ok {
        next := pos + r.used;
        Cut(data, pos, r.used);
        Regroup(was, data[..pos], data[pos..][..r.used]);
        first := r.state;
        Refill(r.out);
        consumed := was + data[..next];
        OwedBounded(false);
      }
    }

    /** One is drained. */
    method DrainOne() returns (r: Reply<A>)
      requires Valid(true) && ptr == end
      modifies this, buf
      ensures NeverFails() ==> r.Reply?
      ensures r.Reply? ==>
        && Valid(true) && consumed == old(consumed) && emitted == old(emitted)
        && ptr == 0 && (if end == 0 then middle == p.whole(consumed) else Owed() < old(Owed()))
    {
      assert buf[ptr..end] == "";
      FirstDrained(one, two, p, q, first, second, consumed, middle, emitted);
      r := one.step(first, Drain, FILTER_BUFFER);
      assert NeverFails() ==> Answers(one, first, Drain, FILTER_BUFFER);
      if r.Reply? {
        first := r.state;
        Refill(r.out);
      }
    }

    /** Two is drained. */
    method DrainTwo(room: Positive) returns (r: Reply<B>)
      requires Valid(true) && ptr == end && middle == p.whole(consumed)
      modifies this
      ensures NeverFails() ==> r.Reply?
      ensures r.Reply? ==>
        && Valid(true) && |r.out| <= room && consumed == old(consumed) && emitted == old(emitted) + r.out
        && Owed() == old(Owed()) && ptr == end
        && (r.out == "" ==> emitted == q.whole(p.whole(consumed)))
    {
      assert buf[ptr..end] == "";
      SecondDrained(one, two, p, q, first, second, room, consumed, middle, emitted);
      r := two.step(second, Drain, room);
      assert NeverFails() ==> Answers(two, second, Drain, room);
      if r.Reply? {
        second := r.state;
        emitted := emitted + r.out;
        assert r.out == "" ==> emitted == old(emitted);
      }
    }

    lemma OwedBounded(drain: bool)
      requires Valid(drain)
      ensures Owed() >= 0
    {
      assert PutOut(p, first, consumed, middle + buf[ptr..end]);
    }

    lemma InOrder(drain: bool)
      requires Valid(drain)
      ensures ptr <= end <= buf.Length
    {
    }

    /** Input goes through one, the buffer and two to output[at..at + room]; left and spare are what
        remains of the input and of the room. */
    method Filter(input: Input, output: array<char>, at: nat, room: Positive) returns (ok: bool, left: nat, spare: nat)
      requires Valid(input.Drain?) && at + room <= output.Length && output != buf
      modifies this, buf, output
      ensures NeverFails() ==> ok
      ensures ok ==>
        && Valid(input.Drain?) && spare <= room
        && emitted == old(emitted) + output[at..at + room - spare]
      ensures ok && input.Feed? ==>
        && left <= |input.data| && consumed == old(consumed) + input.data[..|input.data| - left]
        && (input.data != "" ==> left < |input.data| || spare < room)
      ensures ok && input.Drain? ==>
        && consumed == old(consumed)
        && (spare == room ==> emitted == q.whole(p.whole(consumed)))
      ensures output[..at] == old(output[..at]) && output[at + room..] == old(output[at + room..])
    {
      hide Valid, Owed, NeverFails;
      var data := if input.Feed? then input.data else "";
      var pos: nat, filled: nat := 0, 0;
      OwedBounded(input.Drain?);
      assert output[at..at + filled] == "" && data[..pos] == "";
      ok := true;
      var done := false;
      while filled < room && !done
        invariant pos <= |data| && filled <= room && Valid(input.Drain?) && Owed() >= 0
        invariant consumed == old(consumed) + data[..pos]
        invariant emitted == old(emitted) + output[at..at + filled]
        invariant output[..at] == old(output[..at]) && output[at + room..] == old(output[at + room..])
        invariant done && input.Feed? ==> pos == |data|
        invariant done && input.Drain? ==> emitted == q.whole(p.whole(consumed))
        decreases !done, |data| - pos, Owed(), end - ptr + room - filled
      {
        ok, done, pos, filled := Round(input.Drain?, data, pos, output, at, filled, room, old(consumed), old(emitted));
        if !ok {
          return false, 0, 0;
        }
      }
      left, spare := |data| - pos, room - filled;
    }

    /** One round of the loop: feed two, or else one; at the end of the input, drain them. */
    method Round(drain: bool, data: string, pos: nat, output: array<char>, at: nat, filled: nat, room: nat,
                 ghost taken: string, ghost was: string)
      returns (ok: bool, done: bool, next: nat, now: nat)
      requires Valid(drain) && Owed() >= 0 && pos <= |data| && (drain ==> data == "")
      requires filled < room && at + room <= output.Length && output != buf
      requires consumed == taken + data[..pos] && emitted == was + output[at..at + filled]
      modifies this, buf, output
      ensures NeverFails() ==> ok
      ensures ok ==> Valid(drain) && Owed() >= 0 && pos <= next <= |data| && now <= room
      ensures ok ==> consumed == taken + data[..next] && emitted == was + output[at..at + now]
      ensures output[..at] == old(output[..at]) && output[at + room..] == old(output[at + room..])
      ensures ok && done ==> if drain then now == filled && emitted == q.whole(p.whole(consumed)) else next == |data|
      ensures ok && !done ==>
        || next > pos || Owed() < old(Owed())
        || (Owed() == old(Owed()) && 0 <= end - ptr + room - now < old(end - ptr) + room - filled)
    {
      hide Valid, Owed, NeverFails;
      InOrder(drain);
      done, next, now := false, pos, filled;
      if ptr < end {
        ok, now := FeedTwo(drain, output, at, filled, room, was);
        if ok {
          InOrder(drain);
          OwedBounded(drain);
        }
      } else if drain {
        ok, done, now := DrainBoth(output, at, filled, room, was);
        if ok {
          InOrder(drain);
        }
      } else if pos == |data| {
        ok, done := true, true;
      } else {
        ok, next := StepOne(data, pos, taken);
      }
    }

    /** Two takes from the queue, and its output goes to the caller's buffer. */
    method FeedTwo(drain: bool, output: array<char>, at: nat, filled: nat, room: nat, ghost was: string)
      returns (ok: bool, now: nat)
      requires Valid(drain) && ptr < end && filled < room && at + room <= output.Length && output != buf
      requires emitted == was + output[at..at + filled]
      modifies this, output
      ensures NeverFails() ==> ok
      ensures ok ==> Valid(drain) && now <= room && Owed() == old(Owed()) && consumed == old(consumed)
      ensures ok ==> end - ptr + room - now < old(end - ptr) + room - filled
      ensures ok ==> emitted == was + output[at..at + now]
      ensures output[..at] == old(output[..at]) && output[at + room..] == old(output[at + room..])
    {
      hide Valid, Owed, NeverFails;
      var r := StepTwo(drain, room - filled);
      ok, now := r.Reply?, filled;
      if ok {
        Regroup(was, output[at..at + filled], r.out);
        now := Emit(r.out, output, at, filled, room);
      }
    }

    /** One is drained; when it has nothing left, so is two.  Done when two has nothing left either. */
    method DrainBoth(output: array<char>, at: nat, filled: nat, room: nat, ghost was: string)
      returns (ok: bool, done: bool, now: nat)
      requires Valid(true) && ptr == end && Owed() >= 0 && filled < room && at + room <= output.Length && output != buf
      requires emitted == was + output[at..at + filled]
      modifies this, buf, output
      ensures NeverFails() ==> ok
      ensures ok ==> Valid(true) && now <= room && Owed() >= 0 && consumed == old(consumed)
      ensures ok ==> emitted == was + output[at..at + now]
      ensures ok && done ==> now == filled && emitted == q.whole(p.whole(consumed))
      ensures ok && !done ==> Owed() < old(Owed()) || (Owed() == old(Owed()) && end == ptr && now > filled)
      ensures output[..at] == old(output[..at]) && output[at + room..] == old(output[at + room..])
    {
      hide Valid, NeverFails;
      var r := DrainOne();
      ok, done, now := r.Reply?, false, filled;
      if !ok {
        return;
      }
      OwedBounded(true);
      if end > 0 {
        return;
      }
      var last := DrainTwo(room - filled);
      ok := last.Reply?;
      if !ok {
        return;
      }
      if last.out == "" {
        done := true;
      } else {
        Regroup(was, output[at..at + filled], last.out);
        now := Emit(last.out, output, at, filled, room);
      }
    }

    method Emit(out: string, output: array<char>, at: nat, filled: nat, room: nat) returns (now: nat)
      requires filled + |out| <= room && at + room <= output.Length && output != buf
      modifies output
      ensures now == filled + |out| && output[at..at + now] == old(output[at..at + filled]) + out
      ensures output[..at] == old(output[..at]) && output[at + room..] == old(output[at + room..])
    {
      CopyTo(out, output, at + filled);
      now := filled + |out|;
      assert output[at..at + now] == output[..at + filled][at..] + output[at + filled..at + now];
      assert output[..at] == output[..at + filled][..at];
      assert output[at + room..] == output[at + filled + |out|..][room - filled - |out|..];
    }
  }
}
