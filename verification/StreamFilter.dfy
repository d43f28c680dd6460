/** Streaming filters (convert.c, convert.h:66-76): what one call does, what a filter promises
    over a whole run, and the LF-to-CRLF filter. */
module StreamFilter {
  import opened Convert

  /** NULL input tells the filter to drain. */
  datatype Input = Feed(data: string) | Drain

  type Positive = n: nat | n > 0 witness 1

  /** How much input was consumed and what was put out. */
  datatype Reply<+S> = Failed | Reply(state: S, used: nat, out: string)

  datatype Filter<!S> = Filter(start: S, step: (S, Input, Positive) -> Reply<S>)

  /** What a filter computes on the whole input, and how its state relates to the bytes it
      consumed and put out while it is fed and while it is drained. */
  datatype Promise<!S> = Promise(whole: string -> string, open: (S, string, string) -> bool,
                                 closing: (S, string, string) -> bool)

  ghost predicate Opened<S>(p: Promise<S>, s: S, consumed: string, emitted: string) {
    p.open(s, consumed, emitted)
  }

  ghost predicate Closing<S>(p: Promise<S>, s: S, consumed: string, emitted: string) {
    p.closing(s, consumed, emitted)
  }

  /** Feeding uses some of the input or puts something out, and the state keeps account. */
  ghost predicate FedWell<S>(f: Filter<S>, p: Promise<S>, s: S, data: string, room: Positive, consumed: string,
                             emitted: string)
  {
    var r := f.step(s, Feed(data), room);
    r.Reply? ==>
      && r.used <= |data| && |r.out| <= room && r.used + |r.out| > 0
      && Opened(p, r.state, consumed + data[..r.used], emitted + r.out)
  }

  /** Draining puts out what is left; nothing comes only when everything is out. */
  ghost predicate DrainedWell<S>(f: Filter<S>, p: Promise<S>, s: S, room: Positive, consumed: string, emitted: string) {
    var r := f.step(s, Drain, room);
    r.Reply? ==>
      && |r.out| <= room
      && Closing(p, r.state, consumed, emitted + r.out)
      && (r.out == "" ==> emitted == p.whole(consumed))
  }

  ghost predicate FeedsWell<S(!new)>(f: Filter<S>, p: Promise<S>) {
    forall s, data, room: Positive, consumed, emitted ::
      Opened(p, s, consumed, emitted) && data != "" ==> FedWell(f, p, s, data, room, consumed, emitted)
  }

  ghost predicate DrainsWell<S(!new)>(f: Filter<S>, p: Promise<S>) {
    forall s, room: Positive, consumed, emitted ::
      Closing(p, s, consumed, emitted) ==> DrainedWell(f, p, s, room, consumed, emitted)
  }

  /** Draining may start at any time, and what was put out is never taken back. */
  ghost predicate PutOut<S>(p: Promise<S>, s: S, consumed: string, emitted: string) {
    && (Opened(p, s, consumed, emitted) ==> Closing(p, s, consumed, emitted))
    && (Closing(p, s, consumed, emitted) ==> emitted <= p.whole(consumed))
  }

  ghost predicate Prefixes<S(!new)>(p: Promise<S>) {
    forall s, consumed, emitted :: PutOut(p, s, consumed, emitted)
  }

  ghost predicate Answers<S>(f: Filter<S>, s: S, input: Input, room: Positive) {
    f.step(s, input, room).Reply?
  }

  ghost predicate NeverFails<S(!new)>(f: Filter<S>) {
    forall s, input, room: Positive :: Answers(f, s, input, room)
  }

  ghost predicate Keeps<S(!new)>(f: Filter<S>, p: Promise<S>) {
    && Opened(p, f.start, "", "")
    && FeedsWell(f, p) && DrainsWell(f, p) && Prefixes(p)
  }

  // ---------------------------------------------------------------- whole runs

  /** One offer to a filter: how many bytes of the remaining input, and how much room. */
  datatype Offer = Offer(size: Positive, room: Positive)

  /** Feeding the filter from data, one offer after another; an offer made when no input is
      left is not passed on. */
  function FeedAll<S>(f: Filter<S>, s: S, data: string, offers: seq<Offer>): Reply<S> {
    if offers == [] || data == "" then Reply(s, 0, "")
    else
      var chunk := if offers[0].size < |data| then data[..offers[0].size] else data;
      match f.step(s, Feed(chunk), offers[0].room)
      case Failed => Failed
      case Reply(t, used, out) =>
        if used > |data| then Failed
        else
          match FeedAll(f, t, data[used..], offers[1..])
          case Failed => Failed
          case Reply(u, more, rest) => Reply(u, used + more, out + rest)
  }

  /** Draining until nothing comes out. */
  function DrainAll<S>(f: Filter<S>, s: S, rooms: seq<Positive>): Reply<S> {
    if rooms == [] then Failed
    else
      match f.step(s, Drain, rooms[0])
      case Failed => Failed
      case Reply(t, _, out) =>
        if out == "" then Reply(t, 0, "")
        else
          match DrainAll(f, t, rooms[1..])
          case Failed => Failed
          case Reply(u, _, rest) => Reply(u, 0, out + rest)
  }

  lemma {:induction false} Fed<S(!new)>(f: Filter<S>, p: Promise<S>, s: S, data: string, offers: seq<Offer>,
                                        consumed: string, emitted: string)
    requires Keeps(f, p) && Opened(p, s, consumed, emitted)
    ensures FeedAll(f, s, data, offers).Reply? ==>
      var r := FeedAll(f, s, data, offers);
      r.used <= |data| && Opened(p, r.state, consumed + data[..r.used], emitted + r.out)
    decreases |offers|
  {
    if offers == [] || data == "" || FeedAll(f, s, data, offers).Failed? {
      assert consumed + data[..0] == consumed && emitted + "" == emitted;
    } else {
      var chunk := if offers[0].size < |data| then data[..offers[0].size] else data;
      assert FedWell(f, p, s, chunk, offers[0].room, consumed, emitted);
      var r := f.step(s, Feed(chunk), offers[0].room);
      assert chunk[..r.used] == data[..r.used];
      Fed(f, p, r.state, data[r.used..], offers[1..], consumed + data[..r.used], emitted + r.out);
      var rest := FeedAll(f, r.state, data[r.used..], offers[1..]);
      Regroup(consumed, data[..r.used], data[r.used..][..rest.used]);
      Regroup(emitted, r.out, rest.out);
      Cut(data, r.used, rest.used);
    }
  }

  lemma Regroup(a: string, b: string, c: string)
    ensures a + b + c == a + (b + c)
  {
  }

  lemma Cut(data: string, used: nat, more: nat)
    requires used <= |data| && more <= |data| - used
    ensures data[..used] + data[used..][..more] == data[..used + more]
  {
  }

  lemma {:induction false} Drained<S(!new)>(f: Filter<S>, p: Promise<S>, s: S, rooms: seq<Positive>, consumed: string,
                                            emitted: string)
    requires Keeps(f, p) && Closing(p, s, consumed, emitted)
    ensures DrainAll(f, s, rooms).Reply? ==> emitted + DrainAll(f, s, rooms).out == p.whole(consumed)
    decreases |rooms|
  {
    if DrainAll(f, s, rooms).Reply? {
      assert DrainedWell(f, p, s, rooms[0], consumed, emitted);
      var r := f.step(s, Drain, rooms[0]);
      if r.out == "" {
        assert emitted + "" == emitted;
      } else {
        Drained(f, p, r.state, rooms[1..], consumed, emitted + r.out);
        var rest := DrainAll(f, r.state, rooms[1..]);
        Regroup(emitted, r.out, rest.out);
      }
    }
  }

  lemma Closes<S(!new)>(f: Filter<S>, p: Promise<S>, s: S, consumed: string, emitted: string)
    requires Keeps(f, p) && Opened(p, s, consumed, emitted)
    ensures Closing(p, s, consumed, emitted)
  {
    assert PutOut(p, s, consumed, emitted);
  }

  /** However the input is cut up and however much room each call has, a filter that keeps its
      promise puts out exactly the whole conversion. */
  lemma Streamed<S(!new)>(f: Filter<S>, p: Promise<S>, data: string, offers: seq<Offer>, rooms: seq<Positive>)
    requires Keeps(f, p)
    ensures
      hide FeedAll, DrainAll, FeedsWell, DrainsWell, Prefixes;
    var fed := FeedAll(f, f.start, data, offers);
      fed.Reply? && fed.used == |data| && DrainAll(f, fed.state, rooms).Reply? ==>
        fed.out + DrainAll(f, fed.state, rooms).out == p.whole(data)
  {
    var fed := FeedAll(f, f.start, data, offers);
    Fed(f, p, f.start, data, offers, "", "");
    if fed.Reply? && fed.used == |data| {
      assert "" + data[..fed.used] == data && "" + fed.out == fed.out;
      Closes(f, p, fed.state, data, fed.out);
      Drained(f, p, fed.state, rooms, data, fed.out);
    }
  }

  /** most bounds what the conversion of any part of data from its start may take. */
  ghost predicate AtMost<S>(p: Promise<S>, data: string, most: nat) {
    forall k :: 0 <= k <= |data| ==> |p.whole(data[..k])| <= most
  }

  /** Every offer uses a byte or puts one out, so enough of them use up the input. */
  lemma {:induction false} FedInFull<S(!new)>(f: Filter<S>, p: Promise<S>, s: S, data: string, k: nat,
                                              offers: seq<Offer>, emitted: string, most: nat)
    requires Keeps(f, p) && NeverFails(f) && k <= |data| && Opened(p, s, data[..k], emitted)
    requires AtMost(p, data, most) && |offers| + k + |emitted| >= |data| + most
    ensures FeedAll(f, s, data[k..], offers).Reply? && FeedAll(f, s, data[k..], offers).used == |data| - k
    decreases |offers|
  {
    var rest := data[k..];
    assert PutOut(p, s, data[..k], emitted);
    if offers != [] && rest != "" {
      var chunk := if offers[0].size < |rest| then rest[..offers[0].size] else rest;
      assert Answers(f, s, Feed(chunk), offers[0].room);
      assert FedWell(f, p, s, chunk, offers[0].room, data[..k], emitted);
      var r := f.step(s, Feed(chunk), offers[0].room);
      var next := k + r.used;
      assert chunk[..r.used] == rest[..r.used] && rest[r.used..] == data[next..];
      Cut(data, k, r.used);
      FedInFull(f, p, r.state, data, next, offers[1..], emitted + r.out, most);
    }
  }

  /** Every drain puts something out until all is out. */
  lemma {:induction false} DrainedInFull<S(!new)>(f: Filter<S>, p: Promise<S>, s: S, rooms: seq<Positive>,
                                                  consumed: string, emitted: string)
    requires Keeps(f, p) && NeverFails(f) && Closing(p, s, consumed, emitted)
    requires |rooms| + |emitted| > |p.whole(consumed)|
    ensures DrainAll(f, s, rooms).Reply?
    decreases |rooms|
  {
    assert PutOut(p, s, consumed, emitted);
    assert Answers(f, s, Drain, rooms[0]);
    assert DrainedWell(f, p, s, rooms[0], consumed, emitted);
    var r := f.step(s, Drain, rooms[0]);
    if r.out != "" {
      DrainedInFull(f, p, r.state, rooms[1..], consumed, emitted + r.out);
    }
  }

  /** A filter that never fails gets through: so many calls and all the input is converted and put out. */
  lemma StreamedInFull<S(!new)>(f: Filter<S>, p: Promise<S>, data: string, offers: seq<Offer>, rooms: seq<Positive>,
                                most: nat)
    requires Keeps(f, p) && NeverFails(f) && AtMost(p, data, most)
    requires |offers| >= |data| + most && |rooms| > |p.whole(data)|
    ensures
      var fed := FeedAll(f, f.start, data, offers);
      && fed.Reply? && fed.used == |data| && DrainAll(f, fed.state, rooms).Reply?
      && fed.out + DrainAll(f, fed.state, rooms).out == p.whole(data)
  {
    hide FeedAll, DrainAll, FeedsWell, DrainsWell, Prefixes, NeverFails, AtMost;
    var fed := FeedAll(f, f.start, data, offers);
    assert data[..0] == "" && data[0..] == data;
    FedInFull(f, p, f.start, data, 0, offers, "", most);
    Fed(f, p, f.start, data, offers, "", "");
    assert "" + data[..fed.used] == data && "" + fed.out == fed.out;
    Closes(f, p, fed.state, data, fed.out);
    DrainedInFull(f, p, fed.state, rooms, data, fed.out);
    Streamed(f, p, data, offers, rooms);
  }

  // ---------------------------------------------------------------- LF to CRLF

  datatype Hold = Empty | Holding(c: char)

  function Held(h: Hold): string {
    match h
    case Empty => ""
    case Holding(c) => [c]
  }

  /** What the main loop puts out before a character. */
  function Lead(wasCr: bool, c: char): string {
    if c == '\n' || wasCr then "\r" else ""
  }

  /** What it puts out up to and with a character; a CR waits for what follows. */
  function Passed(wasCr: bool, c: char): string {
    Lead(wasCr, c) + if c == '\r' then "" else [c]
  }

  /** A reply that comes once i bytes are read and out is put out. */
  function After(i: nat, out: string, rest: Reply<Hold>): Reply<Hold> {
    match rest
    case Failed => Failed
    case Reply(s, used, more) => Reply(s, i + used, out + more)
  }

  /** The main loop: wasCr says that a CR was seen and not yet put out. */
  function Scan(wasCr: bool, data: string, room: nat): (r: Reply<Hold>)
    ensures r.Reply? && r.used <= |data| && |r.out| <= room
    decreases |data|
  {
    if data == "" || room == 0 then Reply(if wasCr then Holding('\r') else Empty, 0, "")
    else
      var c := data[0];
      if room <= |Lead(wasCr, c)| then Reply(Holding(c), 1, Lead(wasCr, c))
      else
        var out := Passed(wasCr, c);
        After(1, out, Scan(c == '\r', data[1..], room - |out|))
  }

  /** One call of lf_to_crlf_filter_fn. */
  function LfToCrlf(h: Hold, input: Input, room: Positive): (r: Reply<Hold>)
    ensures r.Reply?
  {
    match input
    case Drain => Reply(Empty, 0, Held(h))
    case Feed(data) =>
      if h.Empty? || h.c == '\r' then Scan(h.Holding?, data, room)
      else if data == "" then Reply(Empty, 0, "")
      else
        var r := Scan(false, data, room - 1);
        Reply(r.state, r.used, [h.c] + r.out)
  }

  /** Nothing is lost, and a CR at the end of the input is still held. */
  ghost predicate HoldOpen(h: Hold, consumed: string, emitted: string) {
    emitted + Held(h) == Crlf(consumed) && (EndsCr(consumed) <==> h == Holding('\r'))
  }

  ghost predicate HoldClosing(h: Hold, consumed: string, emitted: string) {
    emitted + Held(h) == Crlf(consumed)
  }

  /** Inside the main loop: what was put out, and the CR not yet put out. */
  ghost predicate Scanning(wasCr: bool, consumed: string, emitted: string) {
    emitted + (if wasCr then "\r" else "") == Crlf(consumed) && wasCr == EndsCr(consumed)
  }

  lemma ScanKeepsOne(wasCr: bool, c: char, consumed: string, emitted: string)
    requires Scanning(wasCr, consumed, emitted)
    ensures HoldOpen(Holding(c), consumed + [c], emitted + Lead(wasCr, c))
    ensures Scanning(c == '\r', consumed + [c], emitted + Passed(wasCr, c))
  {
    hide Crlf;
    CrlfOneMore(consumed, c);
    Regroup(emitted, Lead(wasCr, c), [c]);
  }

  ghost predicate Accounted(r: Reply<Hold>, data: string, consumed: string, emitted: string) {
    r.Reply? && r.used <= |data| && HoldOpen(r.state, consumed + data[..r.used], emitted + r.out)
  }

  lemma AccountedOneMore(r: Reply<Hold>, data: string, out: string, consumed: string, emitted: string)
    requires data != "" && Accounted(r, data[1..], consumed + [data[0]], emitted + out)
    ensures Accounted(After(1, out, r), data, consumed, emitted)
  {
    hide Crlf, EndsCr, HoldOpen;
    assert consumed + [data[0]] + data[1..][..r.used] == consumed + data[..1 + r.used];
    Regroup(emitted, out, r.out);
  }

  lemma AccountedStop(data: string, out: string, consumed: string, emitted: string)
    requires data != "" && HoldOpen(Holding(data[0]), consumed + [data[0]], emitted + out)
    ensures Accounted(Reply(Holding(data[0]), 1, out), data, consumed, emitted)
  {
    hide Crlf, EndsCr, HoldOpen;
    assert data[..1] == [data[0]];
  }

  lemma AccountedEnd(wasCr: bool, data: string, consumed: string, emitted: string)
    requires Scanning(wasCr, consumed, emitted)
    ensures Accounted(Reply(if wasCr then Holding('\r') else Empty, 0, ""), data, consumed, emitted)
  {
    assert consumed + data[..0] == consumed && emitted + "" == emitted;
  }

  /** One round of the main loop. */
  lemma ScanRound(wasCr: bool, data: string, room: nat)
    requires data != "" && room > 0
    ensures
      var c := data[0];
      var out := Passed(wasCr, c);
      if room <= |Lead(wasCr, c)| then Scan(wasCr, data, room) == Reply(Holding(c), 1, Lead(wasCr, c))
      else |out| <= room && Scan(wasCr, data, room) == After(1, out, Scan(c == '\r', data[1..], room - |out|))
  {
  }

  lemma {:induction false} ScanKeepsAccount(wasCr: bool, data: string, room: nat, consumed: string, emitted: string,
                                            r: Reply<Hold>)
    requires Scanning(wasCr, consumed, emitted) && r == Scan(wasCr, data, room)
    ensures Accounted(r, data, consumed, emitted)
    decreases |data|
  {
    if data == "" || room == 0 {
      AccountedEnd(wasCr, data, consumed, emitted);
    } else {
      var c, lead, out := data[0], Lead(wasCr, data[0]), Passed(wasCr, data[0]);
      ScanRound(wasCr, data, room);
      ScanKeepsOne(wasCr, c, consumed, emitted);
      hide *;
      if room <= |lead| {
        AccountedStop(data, lead, consumed, emitted);
      } else {
        var rest := Scan(c == '\r', data[1..], room - |out|);
        ScanKeepsAccount(c == '\r', data[1..], room - |out|, consumed + [c], emitted + out, rest);
        AccountedOneMore(rest, data, out, consumed, emitted);
      }
    }
  }

  /** With room and input left, the main loop consumes something. */
  lemma ScanMoves(wasCr: bool, data: string, room: nat)
    requires data != "" && room > 0
    ensures Scan(wasCr, data, room).used > 0
  {
  }

  lemma FeedKeepsAccount(h: Hold, data: string, room: Positive, consumed: string, emitted: string)
    requires HoldOpen(h, consumed, emitted) && data != ""
    ensures
      var r := LfToCrlf(h, Feed(data), room);
      && r.used <= |data| && |r.out| <= room && r.used + |r.out| > 0
      && HoldOpen(r.state, consumed + data[..r.used], emitted + r.out)
  {
    if h.Empty? || h.c == '\r' {
      ScanMoves(h.Holding?, data, room);
      ScanKeepsAccount(h.Holding?, data, room, consumed, emitted, Scan(h.Holding?, data, room));
    } else {
      var r := Scan(false, data, room - 1);
      ScanKeepsAccount(false, data, room - 1, consumed, emitted + [h.c], r);
      Regroup(emitted, [h.c], r.out);
    }
  }

  function CrlfFilter(): Filter<Hold> {
    Filter(Empty, LfToCrlf)
  }

  ghost function CrlfPromise(): Promise<Hold> {
    Promise(Crlf, HoldOpen, HoldClosing)
  }

  lemma CrlfKeepsPromise()
    ensures Keeps(CrlfFilter(), CrlfPromise()) && NeverFails(CrlfFilter())
  {
    var f, p := CrlfFilter(), CrlfPromise();
    forall h, data, room: Positive, consumed, emitted | Opened(p, h, consumed, emitted) && data != ""
      ensures FedWell(f, p, h, data, room, consumed, emitted)
    {
      FeedKeepsAccount(h, data, room, consumed, emitted);
    }
    forall h, room: Positive, consumed, emitted | Closing(p, h, consumed, emitted)
      ensures DrainedWell(f, p, h, room, consumed, emitted)
    {
      assert emitted + Held(h) + "" == emitted + Held(h);
    }
  }

  // ---------------------------------------------------------------- the null filter

  /** One call of null_filter_fn. */
  function Copied(s: (), input: Input, room: Positive): Reply<()> {
    match input
    case Drain => Reply((), 0, "")
    case Feed(data) => if room < |data| then Reply((), room, data[..room]) else Reply((), |data|, data)
  }

  function NullFilter(): Filter<()> {
    Filter((), Copied)
  }

  ghost function NullPromise(): Promise<()> {
    Promise(s => s, (s, consumed, emitted) => consumed == emitted, (s, consumed, emitted) => consumed == emitted)
  }

  lemma NullKeepsPromise()
    ensures Keeps(NullFilter(), NullPromise()) && NeverFails(NullFilter())
  {
    var f, p := NullFilter(), NullPromise();
    forall s, data, room: Positive, consumed, emitted | Opened(p, s, consumed, emitted) && data != ""
      ensures FedWell(f, p, s, data, room, consumed, emitted)
    {
      assert data[..|data|] == data;
    }
    forall s, room: Positive, consumed, emitted | Closing(p, s, consumed, emitted)
      ensures DrainedWell(f, p, s, room, consumed, emitted)
    {
      assert emitted + "" == emitted;
    }
  }

  lemma {:induction false} CrlfAtMostDoubles(data: string)
    ensures |Crlf(data)| <= 2 * |data|
  {
    if data != "" {
      CrlfAtMostDoubles(data[..|data| - 1]);
    }
  }

  /** Every chunking and every sequence of capacities gives the bytes of the whole-buffer form; three
      calls for each byte of the input and one more drain are enough to get there. */
  lemma CrlfStreamed(data: string, offers: seq<Offer>, rooms: seq<Positive>)
    ensures
      var fed := FeedAll(CrlfFilter(), Empty, data, offers);
      fed.Reply? && fed.used == |data| && DrainAll(CrlfFilter(), fed.state, rooms).Reply? ==>
        fed.out + DrainAll(CrlfFilter(), fed.state, rooms).out == Crlf(data)
    ensures |offers| >= 3 * |data| && |rooms| > 2 * |data| ==>
      var fed := FeedAll(CrlfFilter(), Empty, data, offers);
      fed.Reply? && fed.used == |data| && DrainAll(CrlfFilter(), fed.state, rooms).Reply?
  {
    var f, p := CrlfFilter(), CrlfPromise();
    CrlfKeepsPromise();
    Streamed(f, p, data, offers, rooms);
    forall k | 0 <= k <= |data|
      ensures |p.whole(data[..k])| <= 2 * |data|
    {
      CrlfAtMostDoubles(data[..k]);
    }
    CrlfAtMostDoubles(data);
    if |offers| >= 3 * |data| && |rooms| > 2 * |data| {
      StreamedInFull(f, p, data, offers, rooms, 2 * |data|);
    }
  }

  /** An empty chunk is the one thing the filter must not be fed: a byte held because the room ran
      out is written, but not counted as put out. */
  lemma AccountKeptExactly(h: Hold, data: string, room: Positive, consumed: string, emitted: string)
    requires HoldOpen(h, consumed, emitted)
    ensures
      var r := LfToCrlf(h, Feed(data), room);
      HoldOpen(r.state, consumed + data[..r.used], emitted + r.out) <==> data != "" || h.Empty? || h.c == '\r'
  {
    if data != "" {
      FeedKeepsAccount(h, data, room, consumed, emitted);
    } else {
      assert consumed + data[..0] == consumed && emitted + "" == emitted;
    }
  }

  lemma EmptyChunkLosesByte()
    ensures
      var f := CrlfFilter();
      var first := f.step(f.start, Feed("\n"), 1);
      var second := f.step(first.state, Feed(""), 1);
      var last := f.step(second.state, Drain, 1);
      first.out + second.out + last.out == "\r" && Crlf("\n") == "\r\n"
  {
    assert Scan(false, "\n", 1) == Reply(Holding('\n'), 1, "\r");
  }

  /** The whole of the loop, seen from where it stands: full, or with the rest to come. */
  ghost predicate Underway(whole: Reply<Hold>, data: string, i: nat, wasCr: bool, h: Hold, put: string, room: nat)
    requires i <= |data|
  {
    match h
    case Holding(_) => room == 0 && whole == Reply(h, i, put)
    case Empty => whole == After(i, put, Scan(wasCr, data[i..], room))
  }

  lemma UnderwayStart(whole: Reply<Hold>, data: string, wasCr: bool, room: nat)
    requires whole == Scan(wasCr, data, room)
    ensures Underway(whole, data, 0, wasCr, Empty, "", room)
  {
    hide Scan;
    ScanReplies(wasCr, data, room);
    assert data[0..] == data && "" + whole.out == whole.out;
  }

  lemma ScanReplies(wasCr: bool, data: string, room: nat)
    ensures var r := Scan(wasCr, data, room); r.Reply? && r.used <= |data| && |r.out| <= room
  {
  }

  /** The loop is over: what the definition gives is what was done. */
  lemma UnderwayEnd(whole: Reply<Hold>, data: string, i: nat, wasCr: bool, h: Hold, put: string, room: nat)
    requires i <= |data| && Underway(whole, data, i, wasCr, h, put, room) && (room == 0 || i == |data|)
    ensures whole == Reply(if h.Empty? && wasCr then Holding('\r') else h, i, put)
  {
    assert put + "" == put;
  }

  /** Feeding, as the loop goes about it: what is let go, and the main loop on the room that is left. */
  lemma FeedIs(h: Hold, data: string, room: Positive)
    ensures
      var wasCr := h == Holding('\r');
      var put := if wasCr then "" else Held(h);
      LfToCrlf(h, Feed(data), room) ==
        if data == "" && !wasCr then Reply(Empty, 0, "") else After(0, put, Scan(wasCr, data, room - |put|))
  {
    ScanReplies(false, data, room);
    assert "" + Scan(h == Holding('\r'), data, room).out == Scan(h == Holding('\r'), data, room).out;
  }

  lemma FilterReply(h: Hold, input: Input, room: Positive)
    ensures match input
      case Drain => LfToCrlf(h, input, room) == Reply(Empty, 0, Held(h))
      case Feed(data) =>
        var wasCr := h == Holding('\r');
        var put := if wasCr then "" else Held(h);
        LfToCrlf(h, input, room) ==
          if data == "" && !wasCr then Reply(Empty, 0, "") else After(0, put, Scan(wasCr, data, room - |put|))
  {
    if input.Feed? {
      FeedIs(h, input.data, room);
    }
  }

  lemma AfterTwo(i: nat, put: string, out: string, rest: Reply<Hold>)
    ensures After(i, put, After(1, out, rest)) == After(i + 1, put + out, rest)
  {
    if rest.Reply? {
      Regroup(put, out, rest.out);
    }
  }

  lemma ScanOne(whole: Reply<Hold>, data: string, i: nat, wasCr: bool, put: string, room: nat, h: Hold, isCr: bool,
                out: string)
    requires i < |data| && room > 0 && Underway(whole, data, i, wasCr, Empty, put, room)
    requires
      var c := data[i];
      if room <= |Lead(wasCr, c)| then h == Holding(c) && out == Lead(wasCr, c)
      else h == Empty && isCr == (c == '\r') && out == Passed(wasCr, c)
    ensures |out| <= room && Underway(whole, data, i + 1, isCr, h, put + out, room - |out|)
  {
    assert data[i..][0] == data[i] && data[i..][1..] == data[i + 1..];
    if h == Empty {
      AfterTwo(i, put, out, Scan(isCr, data[i + 1..], room - |out|));
    }
  }

  lemma Outside(was: string, now: string, first: nat, limit: nat)
    requires first <= limit <= |now| == |was| && now[..first] == was[..first] && now[limit..] == was[limit..]
    ensures forall i :: 0 <= i < |now| && !(first <= i < limit) ==> now[i] == was[i]
  {
    assert forall i :: 0 <= i < first ==> now[i] == now[..first][i];
    assert forall i :: limit <= i < |now| ==> now[i] == now[limit..][i - limit];
  }

  lemma JoinSlices(s: string, at: nat, first: nat, pos: nat)
    requires at <= first <= pos <= |s|
    ensures s[at..pos] == s[at..first] + s[first..pos]
  {
  }

  /** What is put out behind pos is added to what stood between first and pos. */
  lemma PutMore(was: string, now: string, first: nat, pos: nat, next: nat)
    requires first <= pos <= next <= |now| == |was| && now[..pos] == was[..pos]
    ensures now[first..next] == was[first..pos] + now[pos..next] && now[..first] == was[..first]
  {
    assert now[first..pos] == now[..pos][first..] == was[..pos][first..] == was[first..pos];
    assert now[..first] == now[..pos][..first] == was[..pos][..first];
  }

  class LfToCrlfFilter {
    var hasHeld: bool
    var held: char

    constructor ()
      ensures State() == Empty
    {
      hasHeld := false;
    }

    ghost function State(): Hold
      reads this
    {
      if hasHeld then Holding(held) else Empty
    }

    /** The room at output[at..at + room] is the caller's buffer; left and spare are what remains of
        the input and of the room. */
    method Filter(input: Input, output: array<char>, at: nat, room: Positive)
      returns (left: nat, spare: nat, ghost r: Reply<Hold>)
      requires at + room <= output.Length
      modifies this, output
      ensures r == LfToCrlf(old(State()), input, room)
      ensures
        && State() == r.state && |r.out| <= room && spare == room - |r.out|
        && output[at..at + |r.out|] == r.out
        && left == (if input.Feed? then |input.data| - r.used else 0)
      ensures forall i :: 0 <= i < output.Length && !(at <= i < at + room) ==> output[i] == old(output[i])
    {
      hide Scan, LfToCrlf;
      FilterReply(State(), input, room);
      var o := LetGo(input.Drain?, output, at);
      ghost var put := if o == 1 then [old(held)] else "";
      var pos := at + o;
      if input.Drain? {
        left, r := 0, Reply(Empty, 0, put);
      } else {
        left, pos, r := TakeIn(input.data, output, at, at + o, at + room, put);
      }
      spare := at + room - pos;
    }

    method TakeIn(data: string, output: array<char>, at: nat, first: nat, limit: nat, ghost put: string)
      returns (left: nat, pos: nat, ghost r: Reply<Hold>)
      requires at <= first <= limit <= output.Length && output[at..first] == put
      requires hasHeld ==> held == '\r'
      modifies this, output
      ensures r == if data == "" && !old(hasHeld) then Reply(Empty, 0, "")
                   else After(0, put, Scan(old(hasHeld), data, limit - first))
      ensures State() == r.state && left == |data| - r.used
      ensures at <= pos <= limit && output[at..pos] == r.out
      ensures forall i :: 0 <= i < output.Length && !(at <= i < limit) ==> output[i] == old(output[i])
    {
      hide Scan;
      left, pos, r := |data|, at, Reply(Empty, 0, "");
      if |data| > 0 || hasHeld {
        ghost var rest;
        left, pos, rest := MainLoop(data, output, first, limit);
        r := After(0, put, rest);
        assert output[at..first] == put;
        JoinSlices(output[..], at, first, pos);
      }
    }

    /** Puts out what is held, unless it is a CR and more input may come. */
    method LetGo(drain: bool, output: array<char>, at: nat) returns (o: nat)
      requires at < output.Length
      modifies this, output
      ensures o <= 1 && (o == 1 <==> old(hasHeld) && (old(held) != '\r' || drain))
      ensures State() == if o == 1 then Empty else old(State())
      ensures forall i :: 0 <= i < output.Length && i != at ==> output[i] == old(output[i])
      ensures output[at] == if o == 1 then old(held) else old(output[at])
    {
      o := 0;
      if hasHeld && (held != '\r' || drain) {
        output[at] := held;
        o := 1;
        hasHeld := false;
      }
    }

    /** Fills output[first..limit], starting from what is held. */
    method MainLoop(data: string, output: array<char>, first: nat, limit: nat)
      returns (left: nat, pos: nat, ghost r: Reply<Hold>)
      requires first <= limit <= output.Length
      requires hasHeld ==> held == '\r'
      modifies this, output
      ensures r == Scan(old(hasHeld), data, limit - first)
      ensures
        && State() == r.state && left == |data| - r.used
        && first <= pos <= limit && output[first..pos] == r.out
      ensures forall i :: 0 <= i < output.Length && !(first <= i < limit) ==> output[i] == old(output[i])
    {
      hide Underway, Scan;
      var wasCr := hasHeld;
      hasHeld := false;
      var i := 0;
      pos := first;
      r := Scan(wasCr, data, limit - first);
      UnderwayStart(r, data, wasCr, limit - first);
      assert output[first..pos] == "";
      while pos < limit && i < |data|
        invariant i <= |data| && first <= pos <= limit
        invariant Underway(r, data, i, wasCr, State(), output[first..pos], limit - pos)
        invariant output[..first] == old(output[..first]) && output[limit..] == old(output[limit..])
        invariant hasHeld ==> pos == limit
      {
        pos, wasCr := Round(data, i, wasCr, output, first, pos, limit, r);
        i := i + 1;
      }
      UnderwayEnd(r, data, i, wasCr, State(), output[first..pos], limit - pos);
      left := |data| - i;
      if !hasHeld && wasCr {
        hasHeld, held := true, '\r';
      }
      Outside(old(output[..]), output[..], first, limit);
    }

    method Round(data: string, i: nat, wasCr: bool, output: array<char>, first: nat, pos: nat, limit: nat,
                 ghost whole: Reply<Hold>)
      returns (next: nat, isCr: bool)
      requires i < |data| && first <= pos < limit <= output.Length && State() == Empty
      requires Underway(whole, data, i, wasCr, State(), output[first..pos], limit - pos)
      modifies this, output
      ensures pos <= next <= limit && (hasHeld ==> next == limit)
      ensures Underway(whole, data, i + 1, isCr, State(), output[first..next], limit - next)
      ensures output[..first] == old(output[..first]) && output[limit..] == old(output[limit..])
    {
      hide Underway, Lead, Passed;
      ghost var put := output[first..pos];
      next, isCr := Character(data[i], wasCr, output, pos, limit);
      PutMore(old(output[..]), output[..], first, pos, next);
      ScanOne(whole, data, i, wasCr, put, limit - pos, State(), isCr, output[pos..next]);
    }

    /** One round of the loop. */
    method Character(c: char, wasCr: bool, output: array<char>, pos: nat, limit: nat) returns (next: nat, isCr: bool)
      requires pos < limit <= output.Length && !hasHeld
      modifies this, output
      ensures
        var full := limit - pos <= |Lead(wasCr, c)|;
        && hasHeld == full
        && (if full then next == limit && held == c else isCr == (c == '\r'))
        && pos <= next <= limit && output[pos..next] == if full then Lead(wasCr, c) else Passed(wasCr, c)
      ensures output[..pos] == old(output[..pos]) && output[limit..] == old(output[limit..])
    {
      next, isCr := pos, wasCr;
      if c == '\n' || wasCr {
        output[next] := '\r';
        next := next + 1;
      }
      if limit <= next {
        hasHeld, held := true, c;
        return;
      }
      if c == '\r' {
        isCr := true;
        return;
      }
      isCr := false;
      output[next] := c;
      next := next + 1;
    }
  }
}
