/** Cutting a growing file into events (pkg/logsuck/parser/RegexFileParser.go, JsonFileParser.go,
    plugins/filereader/FileWatcher.go). The event delimiter is a fixed non-empty text. */
module FileWatching {
  import opened Common

  // ---- Splitting ----

  predicate OccursAt(s: string, d: string, q: nat) {
    q + |d| <= |s| && s[q..q + |d|] == d
  }

  lemma OccursShift(s: string, d: string, q: nat)
    requires s != ""
    ensures OccursAt(s[1..], d, q) <==> OccursAt(s, d, q + 1)
  {
    if q + 1 + |d| <= |s| {
      assert s[q + 1..q + 1 + |d|] == s[1..][q..q + |d|];
    }
  }

  /** The leftmost occurrence of `d`. */
  function IndexOf(s: string, d: string): (r: Option<nat>)
    requires d != ""
    ensures r.Some? ==> r.value + |d| <= |s|
    decreases |s|
  {
    if |s| < |d| then None
    else if s[..|d|] == d then Some(0)
    else match IndexOf(s[1..], d)
      case None => None
      case Some(p) => Some(p + 1)
  }

  ghost predicate IsFirst(s: string, d: string, r: Option<nat>) {
    match r
    case None => forall q: nat :: !OccursAt(s, d, q)
    case Some(p) => OccursAt(s, d, p) && forall q: nat :: q < p ==> !OccursAt(s, d, q)
  }

  lemma {:induction false} IndexOfIsFirst(s: string, d: string)
    requires d != ""
    ensures IsFirst(s, d, IndexOf(s, d))
    decreases |s|
  {
    if |s| >= |d| && s[..|d|] != d {
      IndexOfIsFirst(s[1..], d);
      forall q: nat | q > 0
        ensures OccursAt(s, d, q) == OccursAt(s[1..], d, q - 1)
      {
        OccursShift(s, d, q - 1);
      }
      assert !OccursAt(s, d, 0);
    }
  }

  /** regexp.Split with a literal: cut at each leftmost occurrence in turn. */
  function Pieces(s: string, d: string): (r: seq<string>)
    requires d != ""
    ensures |r| >= 1
    decreases |s|
  {
    match IndexOf(s, d)
    case None => [s]
    case Some(p) => [s[..p]] + Pieces(s[p + |d|..], d)
  }

  function Complete(s: string, d: string): seq<string>
    requires d != ""
  {
    var ps := Pieces(s, d); ps[..|ps| - 1]
  }

  function Rest(s: string, d: string): string
    requires d != ""
  {
    var ps := Pieces(s, d); ps[|ps| - 1]
  }

  datatype ParserEvent = ParserEvent(raw: string, offset: nat)

  datatype SplitResult = SplitResult(events: seq<ParserEvent>, remainder: string)

  function Raws(events: seq<ParserEvent>): (r: seq<string>)
    ensures |r| == |events|
  {
    seq(|events|, i requires 0 <= i < |events| => events[i].raw)
  }

  /** Where the i-th piece starts. */
  function StartOf(ps: seq<string>, d: string, i: nat): nat
    requires i <= |ps|
  {
    if i == 0 then 0 else StartOf(ps, d, i - 1) + |ps[i - 1]| + |d|
  }

  function EventsOf(ps: seq<string>, d: string): (r: seq<ParserEvent>)
    requires ps != []
    ensures |r| == |ps| - 1
  {
    seq(|ps| - 1, i requires 0 <= i < |ps| - 1 => ParserEvent(ps[i], StartOf(ps, d, i)))
  }

  method Split(s: string, d: string) returns (r: SplitResult)
    requires d != ""
    ensures r == SplitResult(EventsOf(Pieces(s, d), d), Rest(s, d))
  {
    var split := Pieces(s, d);
    var rawEvts := split[..|split| - 1];
    var retEvts := WithOffsets(split, rawEvts, d);
    r := SplitResult(retEvts, split[|split| - 1]);
  }

  method WithOffsets(ghost split: seq<string>, rawEvts: seq<string>, d: string) returns (retEvts: seq<ParserEvent>)
    requires split != [] && rawEvts == split[..|split| - 1]
    ensures retEvts == EventsOf(split, d)
  {
    retEvts := [];
    var offset: nat := 0;
    ghost var all := EventsOf(split, d);
    for i := 0 to |rawEvts|
      invariant offset == StartOf(split, d, i)
      invariant retEvts == all[..i]
    {
      var evt := ParserEvent(rawEvts[i], offset);
      assert all[i] == evt;
      retEvts := retEvts + [evt];
      offset := offset + |rawEvts[i]| + |d|;
    }
  }

  /** The event's text stands at its offset, and the delimiter right after it. */
  predicate EventAt(s: string, d: string, e: ParserEvent) {
    var end := e.offset + |e.raw|;
    end + |d| <= |s| && s[e.offset..end] == e.raw && s[end..end + |d|] == d
  }

  lemma {:induction false} StartShift(p: string, ps: seq<string>, d: string, i: nat)
    requires i <= |ps|
    ensures StartOf([p] + ps, d, i + 1) == |p| + |d| + StartOf(ps, d, i)
  {
    if i > 0 {
      StartShift(p, ps, d, i - 1);
    } else {
      assert StartOf([p] + ps, d, 0) == 0;
    }
  }

  lemma SliceShift(head: string, tail: string, lo: nat, hi: nat)
    requires lo <= hi <= |tail|
    ensures (head + tail)[|head| + lo..|head| + hi] == tail[lo..hi]
  {
  }

  lemma EventShift(head: string, tail: string, d: string, e: ParserEvent)
    requires EventAt(tail, d, e)
    ensures EventAt(head + tail, d, e.(offset := |head| + e.offset))
  {
    var end := e.offset + |e.raw|;
    SliceShift(head, tail, e.offset, end);
    SliceShift(head, tail, end, end + |d|);
  }

  // ---- What a split is, without saying how it is found ----

  function Join(ps: seq<string>, d: string): string
    requires ps != []
  {
    if |ps| == 1 then ps[0] else ps[0] + d + Join(ps[1..], d)
  }

  /** Pieces that rebuild the text, with the delimiter nowhere earlier than right after each of them. */
  ghost predicate IsSplit(ps: seq<string>, s: string, d: string)
    requires d != ""
  {
    && ps != []
    && Join(ps, d) == s
    && (forall i :: 0 <= i < |ps| - 1 ==> IndexOf(ps[i] + d, d) == Some(|ps[i]|))
    && IndexOf(ps[|ps| - 1], d).None?
  }

  lemma IndexOfIs(s: string, d: string, p: nat)
    requires d != "" && OccursAt(s, d, p)
    requires forall q: nat :: q < p ==> !OccursAt(s, d, q)
    ensures IndexOf(s, d) == Some(p)
  {
    IndexOfIsFirst(s, d);
  }

  lemma OccursInPrefix(s: string, t: string, d: string, q: nat)
    requires q + |d| <= |s|
    ensures OccursAt(s + t, d, q) <==> OccursAt(s, d, q)
  {
    assert (s + t)[q..q + |d|] == s[q..q + |d|];
  }

  lemma IndexOfAppend(s: string, t: string, d: string)
    requires d != "" && IndexOf(s, d).Some?
    ensures IndexOf(s + t, d) == IndexOf(s, d)
  {
    IndexOfIsFirst(s, d);
    var p := IndexOf(s, d).value;
    forall q: nat | q <= p
      ensures OccursAt(s + t, d, q) <==> q == p
    {
      OccursInPrefix(s, t, d, q);
    }
    IndexOfIs(s + t, d, p);
  }

  /** The pieces are a split, and the only one. */
  lemma {:induction false} PiecesAreTheSplit(ps: seq<string>, s: string, d: string)
    requires d != ""
    ensures IsSplit(ps, s, d) <==> ps == Pieces(s, d)
    decreases |s|, |ps|
  {
    PiecesAreASplit(s, d);
    if IsSplit(ps, s, d) {
      SplitIsUnique(ps, s, d);
    }
  }

  lemma CutAt(s: string, d: string, p: nat)
    requires OccursAt(s, d, p)
    ensures s == s[..p] + d + s[p + |d|..]
  {
    assert s[..p] + d == s[..p + |d|];
  }

  /** Cut right after its first delimiter, a text has it at the end and nowhere before. */
  lemma FirstPieceIsMinimal(s: string, d: string)
    requires d != "" && IndexOf(s, d).Some?
    ensures var p := IndexOf(s, d).value;
            && s == s[..p] + d + s[p + |d|..]
            && IndexOf(s[..p] + d, d) == Some(p)
  {
    IndexOfIsFirst(s, d);
    var p := IndexOf(s, d).value;
    CutAt(s, d, p);
    MinimalHead(s[..p], s[p + |d|..], d);
  }

  lemma MinimalHead(first: string, tail: string, d: string)
    requires d != ""
    requires forall q: nat :: q < |first| ==> !OccursAt(first + d + tail, d, q)
    ensures IndexOf(first + d, d) == Some(|first|)
  {
    var head := first + d;
    forall q: nat | q < |first|
      ensures !OccursAt(head, d, q)
    {
      OccursInPrefix(head, tail, d, q);
    }
    assert head[|first|..|first| + |d|] == d;
    IndexOfIs(head, d, |first|);
  }

  /** The first piece splits off. */
  lemma PiecesCons(first: string, tail: string, d: string)
    requires d != "" && IndexOf(first + d, d) == Some(|first|)
    ensures Pieces(first + d + tail, d) == [first] + Pieces(tail, d)
  {
    var s := first + d + tail;
    IndexOfAppend(first + d, tail, d);
    assert s[..|first|] == first && s[|first| + |d|..] == tail;
  }

  lemma {:induction false} PiecesAreASplit(s: string, d: string)
    requires d != ""
    ensures IsSplit(Pieces(s, d), s, d)
    decreases |s|
  {
    if IndexOf(s, d).Some? {
      var p := IndexOf(s, d).value;
      var tail := s[p + |d|..];
      PiecesAreASplit(tail, d);
      FirstPieceIsMinimal(s, d);
      ConsSplit(s[..p], Pieces(tail, d), tail, d);
    }
  }

  lemma ConsSplit(head: string, ps: seq<string>, tail: string, d: string)
    requires d != "" && IsSplit(ps, tail, d) && IndexOf(head + d, d) == Some(|head|)
    ensures IsSplit([head] + ps, head + d + tail, d)
  {
    var all := [head] + ps;
    assert all[1..] == ps;
    forall i | 0 <= i < |all| - 1
      ensures IndexOf(all[i] + d, d) == Some(|all[i]|)
    {
      if i > 0 {
        assert all[i] == ps[i - 1];
      }
    }
  }

  lemma {:induction false} SplitIsUnique(ps: seq<string>, s: string, d: string)
    requires d != "" && IsSplit(ps, s, d)
    ensures ps == Pieces(s, d)
    decreases |ps|
  {
    if |ps| > 1 {
      var tail := Join(ps[1..], d);
      assert IsSplit(ps[1..], tail, d) by {
        forall i | 0 <= i < |ps[1..]| - 1
          ensures IndexOf(ps[1..][i] + d, d) == Some(|ps[1..][i]|)
        {
          assert ps[1..][i] == ps[i + 1];
        }
      }
      SplitIsUnique(ps[1..], tail, d);
      PiecesCons(ps[0], tail, d);
    }
  }

  lemma CompleteCons(first: string, tail: string, d: string)
    requires d != "" && IndexOf(first + d, d) == Some(|first|)
    ensures Complete(first + d + tail, d) == [first] + Complete(tail, d)
    ensures Rest(first + d + tail, d) == Rest(tail, d)
  {
    PiecesCons(first, tail, d);
  }

  /** Reading on after a split: only the remainder has to be looked at again. */
  lemma {:induction false} SplitContinues(s: string, chunk: string, d: string)
    requires d != ""
    ensures Complete(s + chunk, d) == Complete(s, d) + Complete(Rest(s, d) + chunk, d)
    ensures Rest(s + chunk, d) == Rest(Rest(s, d) + chunk, d)
    decreases |s|
  {
    if IndexOf(s, d).None? {
      NoDelimiter(s, d);
      assert [] + Complete(s + chunk, d) == Complete(s + chunk, d);
    } else {
      var p := IndexOf(s, d).value;
      var first, tail := s[..p], s[p + |d|..];
      FirstPieceIsMinimal(s, d);
      SplitContinues(tail, chunk, d);
      SplitContinuesCons(first, tail, chunk, d);
    }
  }

  lemma NoDelimiter(s: string, d: string)
    requires d != "" && IndexOf(s, d).None?
    ensures Complete(s, d) == [] && Rest(s, d) == s
  {
  }

  lemma NothingToSplit(s: string, d: string, host: string, source: string, id: nat, start: nat)
    requires d != "" && IndexOf(s, d).None?
    ensures Rest(s, d) == s && Complete(s, d) == []
    ensures var evts := EventsOf(Pieces(s, d), d);
            evts == [] && SumOfStarts(evts) == 0 && Published(evts, host, source, id, start) == []
  {
  }

  lemma SplitContinuesCons(first: string, tail: string, chunk: string, d: string)
    requires d != "" && IndexOf(first + d, d) == Some(|first|)
    requires Complete(tail + chunk, d) == Complete(tail, d) + Complete(Rest(tail, d) + chunk, d)
    requires Rest(tail + chunk, d) == Rest(Rest(tail, d) + chunk, d)
    ensures Complete(first + d + tail + chunk, d) ==
            Complete(first + d + tail, d) + Complete(Rest(first + d + tail, d) + chunk, d)
    ensures Rest(first + d + tail + chunk, d) == Rest(Rest(first + d + tail, d) + chunk, d)
  {
    assert first + d + tail + chunk == first + d + (tail + chunk);
    CompleteCons(first, tail, d);
    CompleteCons(first, tail + chunk, d);
    ConsAppend(first, Complete(tail, d), Complete(Rest(tail, d) + chunk, d));
  }

  lemma ConsAppend<T>(x: T, a: seq<T>, b: seq<T>)
    ensures [x] + (a + b) == [x] + a + b
  {
  }

  lemma {:induction false} PieceAt(ps: seq<string>, d: string, i: nat)
    requires i < |ps| - 1
    ensures EventAt(Join(ps, d), d, ParserEvent(ps[i], StartOf(ps, d, i)))
    decreases i
  {
    var head, tail := ps[0] + d, Join(ps[1..], d);
    if i > 0 {
      PieceAt(ps[1..], d, i - 1);
      assert ps == [ps[0]] + ps[1..];
      StartShift(ps[0], ps[1..], d, i - 1);
      EventShift(head, tail, d, ParserEvent(ps[i], StartOf(ps[1..], d, i - 1)));
    } else {
      assert (head + tail)[|ps[0]|..|head|] == d;
    }
  }

  /** Every event of a split carries the text at its offset, up to the next delimiter. */
  lemma SplitOffsets(s: string, d: string, i: nat)
    requires d != "" && i < |Pieces(s, d)| - 1
    ensures EventAt(s, d, EventsOf(Pieces(s, d), d)[i])
  {
    PiecesAreASplit(s, d);
    PieceAt(Pieces(s, d), d, i);
  }

  // ---- The watcher ----

  datatype RawEvent = RawEvent(raw: string, host: string, source: string, sourceId: nat, offset: nat)

  /** The start positions of some events, added up. */
  function SumOfStarts(events: seq<ParserEvent>): nat {
    if events == [] then 0 else SumOfStarts(events[..|events| - 1]) + events[|events| - 1].offset
  }

  /** What handleEvents publishes: the offset advances by each event's own start position. */
  function Published(events: seq<ParserEvent>, host: string, source: string, sourceId: nat, start: nat)
    : (r: seq<RawEvent>)
    ensures |r| == |events|
  {
    if events == [] then []
    else
      var init, last := events[..|events| - 1], events[|events| - 1];
      Published(init, host, source, sourceId, start) +
      [RawEvent(last.raw, host, source, sourceId, start + SumOfStarts(init))]
  }

  lemma {:induction false} PublishedAt(events: seq<ParserEvent>, host: string, source: string, id: nat, start: nat,
                                       i: nat)
    requires i < |events|
    ensures Published(events, host, source, id, start)[i] ==
            RawEvent(events[i].raw, host, source, id, start + SumOfStarts(events[..i]))
  {
    if i < |events| - 1 {
      PublishedAt(events[..|events| - 1], host, source, id, start, i);
      assert events[..|events| - 1][..i] == events[..i];
    }
  }

  function RawTexts(events: seq<RawEvent>): (r: seq<string>)
    ensures |r| == |events|
  {
    seq(|events|, i requires 0 <= i < |events| => events[i].raw)
  }

  lemma {:induction false} SumAppend(a: seq<ParserEvent>, b: seq<ParserEvent>)
    ensures SumOfStarts(a + b) == SumOfStarts(a) + SumOfStarts(b)
  {
    if b == [] {
      assert a + b == a;
    } else {
      var n := |b| - 1;
      assert (a + b)[..|a + b| - 1] == a + b[..n];
      SumAppend(a, b[..n]);
    }
  }

  /** The first event gets the offset at the start of the call, and each one moves it on by where that event starts in
      the string, not by where it ends. */
  lemma OffsetsAdvance(events: seq<ParserEvent>, host: string, source: string, id: nat, start: nat, i: nat)
    requires i < |events|
    ensures var ps := Published(events, host, source, id, start);
            && ps[0].offset == start
            && (i + 1 < |events| ==> ps[i + 1].offset == ps[i].offset + events[i].offset)
  {
    PublishedAt(events, host, source, id, start, 0);
    PublishedAt(events, host, source, id, start, i);
    if i + 1 < |events| {
      PublishedAt(events, host, source, id, start, i + 1);
      assert events[..i + 1][..i] == events[..i];
    }
  }

  /** Two calls in a row publish what one call would whose events had both calls' starts. */
  lemma {:induction false} PublishedAppend(a: seq<ParserEvent>, b: seq<ParserEvent>, host: string, source: string,
                                           id: nat, start: nat)
    ensures Published(a + b, host, source, id, start) ==
            Published(a, host, source, id, start) + Published(b, host, source, id, start + SumOfStarts(a))
  {
    var first := Published(a, host, source, id, start);
    if b == [] {
      assert a + b == a;
      assert first + [] == first;
    } else {
      var n := |b| - 1;
      assert (a + b)[..|a + b| - 1] == a + b[..n];
      PublishedAppend(a, b[..n], host, source, id, start);
      SumAppend(a, b[..n]);
    }
  }

  lemma {:induction false} PublishedTexts(events: seq<ParserEvent>, host: string, source: string, id: nat, start: nat)
    ensures RawTexts(Published(events, host, source, id, start)) == Raws(events)
  {
    forall i | 0 <= i < |events|
      ensures Published(events, host, source, id, start)[i].raw == events[i].raw
    {
      PublishedAt(events, host, source, id, start, i);
    }
  }

  /** The events of each opening of the file, each with its start in the string of its own call. */
  function AllPublished(found: seq<seq<ParserEvent>>, host: string, source: string): seq<RawEvent> {
    if found == [] then []
    else
      AllPublished(found[..|found| - 1], host, source) + Published(found[|found| - 1], host, source, |found|, 0)
  }

  lemma AllPublishedGrows(found: seq<seq<ParserEvent>>, more: seq<ParserEvent>, host: string, source: string)
    requires found != []
    ensures var last := found[|found| - 1];
            AllPublished(found[|found| - 1 := last + more], host, source) ==
            AllPublished(found, host, source) + Published(more, host, source, |found|, SumOfStarts(last))
  {
    var n := |found| - 1;
    var last := found[n];
    assert found[n := last + more][..n] == found[..n];
    PublishedAppend(last, more, host, source, |found|, 0);
  }

  /** Each event is the first of a call, with start 0, or starts after the one before it and a delimiter. */
  predicate StartsOk(events: seq<ParserEvent>, d: string) {
    && (events != [] ==> events[0].offset == 0)
    && forall i :: 0 < i < |events| ==>
         events[i].offset == 0 || events[i].offset == events[i - 1].offset + |events[i - 1].raw| + |d|
  }

  /** The events of one opening are the complete pieces of its content, found in one call or in several. */
  predicate OpeningOk(events: seq<ParserEvent>, content: string, d: string)
    requires d != ""
  {
    Raws(events) == Complete(content, d) && StartsOk(events, d)
  }

  lemma CallStarts(events: seq<ParserEvent>, ps: seq<string>, d: string)
    requires ps != [] && StartsOk(events, d)
    ensures StartsOk(events + EventsOf(ps, d), d)
  {
    var more := EventsOf(ps, d);
    var all := events + more;
    assert StartOf(ps, d, 0) == 0;
    forall i | 0 < i < |all|
      ensures all[i].offset == 0 || all[i].offset == all[i - 1].offset + |all[i - 1].raw| + |d|
    {
      if i < |events| {
        assert all[i] == events[i] && all[i - 1] == events[i - 1];
      } else {
        var k := i - |events|;
        assert all[i] == more[k];
        assert k > 0 ==> all[i - 1] == more[k - 1];
      }
    }
  }

  lemma OpeningGrows(events: seq<ParserEvent>, content: string, chunk: string, d: string)
    requires d != "" && OpeningOk(events, content, d)
    ensures OpeningOk(events + EventsOf(Pieces(Rest(content, d) + chunk, d), d), content + chunk, d)
  {
    var ps := Pieces(Rest(content, d) + chunk, d);
    SplitContinues(content, chunk, d);
    CallStarts(events, ps, d);
    assert Raws(EventsOf(ps, d)) == ps[..|ps| - 1];
    assert Raws(events + EventsOf(ps, d)) == Raws(events) + Raws(EventsOf(ps, d));
  }

  /** One turn of the watcher's loop: whether a reopen command arrived, what could still be read from the old file,
      whether the file can be opened if it is not open, and what is read from it then. */
  datatype Turn = Turn(reopen: bool, before: seq<string>, opens: bool, chunks: seq<string>)

  /** The contents read so far, one text for each time the file was opened, and whether it is open now. */
  function Contents(turns: seq<Turn>): (r: (bool, seq<string>))
    ensures r.0 ==> r.1 != []
  {
    if turns == [] then (false, [])
    else ContentsStep(Contents(turns[..|turns| - 1]), turns[|turns| - 1])
  }

  function AppendToLast(cs: seq<string>, text: string): seq<string>
    requires cs != []
  {
    cs[|cs| - 1 := cs[|cs| - 1] + text]
  }

  lemma AppendTwice(cs: seq<string>, a: string, b: string)
    requires cs != []
    ensures AppendToLast(AppendToLast(cs, a), b) == AppendToLast(cs, a + b)
  {
    assert cs[|cs| - 1] + a + b == cs[|cs| - 1] + (a + b);
  }

  function ContentsStep(st: (bool, seq<string>), turn: Turn): (r: (bool, seq<string>))
    requires st.0 ==> st.1 != []
    ensures r.0 ==> r.1 != []
  {
    var closed := if turn.reopen && st.0 then (false, AppendToLast(st.1, Flatten(turn.before))) else st;
    var reopened := if !closed.0 && turn.opens then (true, closed.1 + [""]) else closed;
    if reopened.0 then (true, AppendToLast(reopened.1, Flatten(turn.chunks))) else reopened
  }

  // ---- The contents, turn by turn ----

  /** No reopen command from turn `from` on, up to turn `to`. */
  predicate NoReopen(turns: seq<Turn>, from: nat, to: nat)
    requires to <= |turns|
  {
    forall r :: from <= r < to ==> !turns[r].reopen
  }

  /** The file is opened in turn i: it can be, and a reopen has come since any earlier turn in which it could be. */
  ghost predicate IsOpening(turns: seq<Turn>, i: nat)
    requires i < |turns|
  {
    turns[i].opens && forall k :: 0 <= k < i && turns[k].opens ==> !NoReopen(turns, k + 1, i + 1)
  }

  /** Everything read from the open file in some turns. */
  function ReadIn(turns: seq<Turn>): string {
    if turns == [] then "" else ReadIn(turns[..|turns| - 1]) + Flatten(turns[|turns| - 1].chunks)
  }

  /** What is read from the file opened in turn i if turn j is the one that reopens it: the chunks of the turns up to
      there, and what that turn still finds in the old file. Without a reopen it is the chunks of all turns from i
      on. */
  ghost predicate ReadUntil(content: string, turns: seq<Turn>, i: nat, j: nat) {
    && i < j <= |turns| && NoReopen(turns, i + 1, j)
    && (j < |turns| ==> turns[j].reopen && content == ReadIn(turns[i..j]) + Flatten(turns[j].before))
    && (j == |turns| ==> content == ReadIn(turns[i..]))
  }

  ghost predicate IsContent(content: string, turns: seq<Turn>, i: nat) {
    exists j: nat :: ReadUntil(content, turns, i, j)
  }

  ghost predicate AreOpenings(at: seq<nat>, turns: seq<Turn>) {
    && (forall k :: 0 <= k < |at| ==> at[k] < |turns|)
    && (forall i, j :: 0 <= i < j < |at| ==> at[i] < at[j])
    && (forall i :: 0 <= i < |turns| ==> (i in at <==> IsOpening(turns, i)))
  }

  ghost predicate AreContents(cs: seq<string>, at: seq<nat>, turns: seq<Turn>)
    requires AreOpenings(at, turns)
  {
    |cs| == |at| && forall k :: 0 <= k < |at| ==> IsContent(cs[k], turns, at[k])
  }

  /** Open: no reopen since the last opening. */
  ghost predicate OpenSince(at: seq<nat>, turns: seq<Turn>)
    requires AreOpenings(at, turns)
  {
    at != [] && NoReopen(turns, at[|at| - 1] + 1, |turns|)
  }

  lemma ReopenSame(turns: seq<Turn>, turn: Turn, from: nat, to: nat)
    requires to <= |turns|
    ensures NoReopen(turns + [turn], from, to) <==> NoReopen(turns, from, to)
    ensures from <= |turns| ==>
      (NoReopen(turns + [turn], from, |turns| + 1) <==> NoReopen(turns, from, |turns|) && !turn.reopen)
  {
    var all := turns + [turn];
    assert forall r :: 0 <= r < |turns| ==> all[r] == turns[r];
    assert all[|turns|] == turn;
  }

  lemma OpeningsStep(at: seq<nat>, turns: seq<Turn>, turn: Turn)
    requires AreOpenings(at, turns)
    ensures var opens := turn.opens && (turn.reopen || !OpenSince(at, turns));
            AreOpenings(if opens then at + [|turns|] else at, turns + [turn])
  {
    var all, n := turns + [turn], |turns|;
    forall i | 0 <= i < n
      ensures IsOpening(all, i) <==> IsOpening(turns, i)
    {
      PrefixOpening(turns, turn, i);
    }
    OpensNow(at, turns, turn);
    assert n !in at;
  }

  lemma PrefixOpening(turns: seq<Turn>, turn: Turn, i: nat)
    requires i < |turns|
    ensures IsOpening(turns + [turn], i) <==> IsOpening(turns, i)
  {
    var all := turns + [turn];
    forall k | 0 <= k < i && turns[k].opens
      ensures all[k].opens
      ensures NoReopen(all, k + 1, i + 1) <==> NoReopen(turns, k + 1, i + 1)
    {
      ReopenSame(turns, turn, k + 1, i + 1);
    }
  }

  /** If the file could be opened in turn k and no reopen has come since, it is open. */
  lemma {:induction false} StillOpen(at: seq<nat>, turns: seq<Turn>, k: nat)
    requires AreOpenings(at, turns)
    requires k < |turns| && turns[k].opens && NoReopen(turns, k + 1, |turns|)
    ensures OpenSince(at, turns)
    decreases k
  {
    if IsOpening(turns, k) {
      var m :| 0 <= m < |at| && at[m] == k;
      assert at[|at| - 1] >= k;
    } else {
      var k' :| 0 <= k' < k && turns[k'].opens && NoReopen(turns, k' + 1, k + 1);
      StillOpen(at, turns, k');
    }
  }

  lemma OpensNow(at: seq<nat>, turns: seq<Turn>, turn: Turn)
    requires AreOpenings(at, turns)
    ensures IsOpening(turns + [turn], |turns|) <==> turn.opens && (turn.reopen || !OpenSince(at, turns))
  {
    var all, n := turns + [turn], |turns|;
    forall k | 0 <= k < n && turns[k].opens
      ensures all[k].opens
      ensures NoReopen(all, k + 1, n + 1) <==> NoReopen(turns, k + 1, n) && !turn.reopen
    {
      ReopenSame(turns, turn, k + 1, n);
    }
    if !turn.reopen {
      if OpenSince(at, turns) {
        var last := at[|at| - 1];
        assert last in at && IsOpening(turns, last);
        assert NoReopen(all, last + 1, n + 1);
      } else {
        forall k | 0 <= k < n && all[k].opens
          ensures !NoReopen(all, k + 1, n + 1)
        {
          if NoReopen(turns, k + 1, n) {
            StillOpen(at, turns, k);
          }
        }
      }
    }
  }

  /** A file that was closed before keeps its content. */
  lemma ClosedContent(content: string, turns: seq<Turn>, i: nat, turn: Turn)
    requires i < |turns| && IsContent(content, turns, i) && !NoReopen(turns, i + 1, |turns|)
    ensures IsContent(content, turns + [turn], i) && !NoReopen(turns + [turn], i + 1, |turns| + 1)
  {
    var all := turns + [turn];
    var j: nat :| ReadUntil(content, turns, i, j);
    ReopenSame(turns, turn, i + 1, j);
    assert all[i..j] == turns[i..j];
    assert ReadUntil(content, all, i, j);
  }

  /** The open file grows by what is read, and a reopen closes it behind what is left of it. */
  lemma OpenContent(content: string, turns: seq<Turn>, i: nat, turn: Turn)
    requires i < |turns| && IsContent(content, turns, i) && NoReopen(turns, i + 1, |turns|)
    ensures IsContent(content + Flatten(if turn.reopen then turn.before else turn.chunks), turns + [turn], i)
    ensures NoReopen(turns + [turn], i + 1, |turns| + 1) <==> !turn.reopen
  {
    var all, n := turns + [turn], |turns|;
    assert content == ReadIn(turns[i..]);
    ReopenSame(turns, turn, i + 1, n);
    assert all[i..n] == turns[i..];
    if !turn.reopen {
      assert all[i..] == turns[i..] + [turn];
      assert all[i..][..|all[i..]| - 1] == turns[i..];
      assert ReadUntil(content + Flatten(turn.chunks), all, i, n + 1);
    } else {
      assert ReadUntil(content + Flatten(turn.before), all, i, n);
    }
  }

  lemma NewContent(turns: seq<Turn>, turn: Turn)
    ensures IsContent("" + Flatten(turn.chunks), turns + [turn], |turns|)
    ensures NoReopen(turns + [turn], |turns| + 1, |turns| + 1)
  {
    var all, n := turns + [turn], |turns|;
    assert all[n..] == [turn];
    assert [turn][..0] == [];
    assert ReadIn([turn]) == ReadIn([]) + Flatten(turn.chunks);
    assert ReadUntil("" + Flatten(turn.chunks), all, n, n + 1);
  }

  /** Only the last opening can still be open. */
  lemma OthersClosed(at: seq<nat>, turns: seq<Turn>, k: nat)
    requires AreOpenings(at, turns) && k + 1 < |at|
    ensures !NoReopen(turns, at[k] + 1, |turns|)
  {
    var next := at[k + 1];
    assert next in at && at[k] in at;
    assert IsOpening(turns, next) && IsOpening(turns, at[k]);
    assert !NoReopen(turns, at[k] + 1, next + 1);
  }

  /** The contents as one turn after the other makes them are what the turns as a whole say. */
  lemma {:induction false} ContentsByTurns(turns: seq<Turn>) returns (at: seq<nat>)
    ensures AreOpenings(at, turns) && AreContents(Contents(turns).1, at, turns)
    ensures Contents(turns).0 <==> OpenSince(at, turns)
  {
    hide IsContent, IsOpening, NoReopen, Flatten, ContentsStep;
    at := [];
    if turns != [] {
      var n := |turns| - 1;
      var init, turn := turns[..n], turns[n];
      at := ContentsByTurns(init);
      assert turns == init + [turn];
      OpeningsStep(at, init, turn);
      ContentsGrow(at, Contents(init), init, turn);
      if turn.opens && (turn.reopen || !OpenSince(at, init)) {
        at := at + [n];
      }
    }
  }

  /** The file that is open gains what is left of it or what is read now, and there may be a new one. */
  function Grown(st: (bool, seq<string>), turn: Turn): (r: seq<string>)
    requires st.0 ==> st.1 != []
    ensures |r| == |st.1|
  {
    if st.0 then AppendToLast(st.1, Flatten(if turn.reopen then turn.before else turn.chunks)) else st.1
  }

  lemma StepGrows(st: (bool, seq<string>), turn: Turn)
    requires st.0 ==> st.1 != []
    ensures ContentsStep(st, turn) ==
            if turn.opens && (turn.reopen || !st.0) then (true, Grown(st, turn) + ["" + Flatten(turn.chunks)])
            else (st.0 && !turn.reopen, Grown(st, turn))
  {
    var text := Flatten(turn.chunks);
    var closed := if turn.reopen && st.0 then AppendToLast(st.1, Flatten(turn.before)) else st.1;
    assert AppendToLast(closed + [""], text) == closed + ["" + text];
  }

  lemma GrownContents(at: seq<nat>, st: (bool, seq<string>), turns: seq<Turn>, turn: Turn, k: nat)
    requires AreOpenings(at, turns) && AreContents(st.1, at, turns) && (st.0 <==> OpenSince(at, turns)) && k < |at|
    ensures IsContent(Grown(st, turn)[k], turns + [turn], at[k])
  {
    if k < |at| - 1 {
      OthersClosed(at, turns, k);
    }
    if st.0 && k == |at| - 1 {
      OpenContent(st.1[k], turns, at[k], turn);
    } else {
      ClosedContent(st.1[k], turns, at[k], turn);
    }
  }

  lemma ContentsGrow(at: seq<nat>, st: (bool, seq<string>), turns: seq<Turn>, turn: Turn)
    requires AreOpenings(at, turns) && AreContents(st.1, at, turns) && (st.0 <==> OpenSince(at, turns))
    requires AreOpenings(if turn.opens && (turn.reopen || !st.0) then at + [|turns|] else at, turns + [turn])
    ensures var at' := if turn.opens && (turn.reopen || !st.0) then at + [|turns|] else at;
            && AreContents(ContentsStep(st, turn).1, at', turns + [turn])
            && (ContentsStep(st, turn).0 <==> OpenSince(at', turns + [turn]))
  {
    hide IsContent, AreOpenings, NoReopen, Flatten, Grown, ContentsStep;
    forall k | 0 <= k < |at|
      ensures IsContent(Grown(st, turn)[k], turns + [turn], at[k])
    {
      GrownContents(at, st, turns, turn, k);
    }
    StaysOpen(at, st.0, turns, turn);
    NewContent(turns, turn);
    StepGrows(st, turn);
  }

  lemma StaysOpen(at: seq<nat>, open: bool, turns: seq<Turn>, turn: Turn)
    requires AreOpenings(at, turns) && (open <==> OpenSince(at, turns))
    ensures at != [] ==> (NoReopen(turns + [turn], at[|at| - 1] + 1, |turns| + 1) <==> open && !turn.reopen)
  {
    if at != [] {
      ReopenSame(turns, turn, at[|at| - 1] + 1, |turns|);
    }
  }

  function AllComplete(contents: seq<string>, d: string): seq<string>
    requires d != ""
  {
    if contents == [] then []
    else AllComplete(contents[..|contents| - 1], d) + Complete(contents[|contents| - 1], d)
  }

  lemma {:induction false} TextsOfAll(found: seq<seq<ParserEvent>>, contents: seq<string>, host: string,
                                      source: string, d: string)
    requires d != "" && |found| == |contents|
    requires forall k :: 0 <= k < |found| ==> OpeningOk(found[k], contents[k], d)
    ensures RawTexts(AllPublished(found, host, source)) == AllComplete(contents, d)
  {
    if found != [] {
      var n := |found| - 1;
      TextsOfAll(found[..n], contents[..n], host, source, d);
      var before, last := AllPublished(found[..n], host, source), Published(found[n], host, source, |found|, 0);
      assert RawTexts(before + last) == RawTexts(before) + RawTexts(last);
      PublishedTexts(found[n], host, source, |found|, 0);
    }
  }

  /** One part for each opening: the complete pieces of its content, under the source id of that opening. */
  ghost predicate AreParts(parts: seq<seq<RawEvent>>, contents: seq<string>, d: string, host: string, source: string)
    requires d != ""
  {
    && |parts| == |contents|
    && (forall k :: 0 <= k < |parts| ==> |parts[k]| == |Pieces(contents[k], d)| - 1)
    && (forall k, i :: 0 <= k < |parts| && 0 <= i < |parts[k]| ==>
          && parts[k][i].raw == Pieces(contents[k], d)[i]
          && parts[k][i].host == host && parts[k][i].source == source && parts[k][i].sourceId == k + 1)
  }

  lemma NoParts(contents: seq<string>, d: string, host: string, source: string)
    requires d != "" && contents == []
    ensures Flatten<RawEvent>([]) == [] && AreParts([], contents, d, host, source)
  {
  }

  lemma PartsSnoc(parts: seq<seq<RawEvent>>, part: seq<RawEvent>, contents: seq<string>, content: string, d: string,
                  host: string, source: string)
    requires d != "" && AreParts(parts, contents, d, host, source) && |part| == |Pieces(content, d)| - 1
    requires forall i :: 0 <= i < |part| ==>
      && part[i].raw == Pieces(content, d)[i]
      && part[i].host == host && part[i].source == source && part[i].sourceId == |contents| + 1
    ensures AreParts(parts + [part], contents + [content], d, host, source)
  {
    hide Pieces;
  }

  lemma {:induction false} PartsOf(found: seq<seq<ParserEvent>>, contents: seq<string>, host: string, source: string,
                                   d: string)
    returns (parts: seq<seq<RawEvent>>)
    requires d != "" && |found| == |contents|
    requires forall k :: 0 <= k < |found| ==> OpeningOk(found[k], contents[k], d)
    ensures Flatten(parts) == AllPublished(found, host, source) && AreParts(parts, contents, d, host, source)
  {
    hide Pieces, Published, OpeningOk, AreParts, Flatten;
    parts := [];
    if found == [] {
      NoParts(contents, d, host, source);
    } else {
      var n := |found| - 1;
      parts := PartsOf(found[..n], contents[..n], host, source, d);
      var part := Published(found[n], host, source, n + 1, 0);
      FlattenSnoc(parts, part);
      LastPart(found[n], contents[n], host, source, n + 1, d);
      PartsSnoc(parts, part, contents[..n], contents[n], d, host, source);
      assert contents == contents[..n] + [contents[n]];
      parts := parts + [part];
    }
  }

  lemma LastPart(events: seq<ParserEvent>, content: string, host: string, source: string, id: nat, d: string)
    requires d != "" && OpeningOk(events, content, d)
    ensures var part := Published(events, host, source, id, 0);
            && |part| == |Pieces(content, d)| - 1
            && forall i :: 0 <= i < |part| ==>
                 && part[i].raw == Pieces(content, d)[i]
                 && part[i].host == host && part[i].source == source && part[i].sourceId == id
  {
    var part := Published(events, host, source, id, 0);
    assert |Raws(events)| == |part|;
    forall i | 0 <= i < |part|
      ensures part[i].raw == Raws(events)[i] && part[i].host == host && part[i].source == source
      ensures part[i].sourceId == id
    {
      PublishedAt(events, host, source, id, 0, i);
    }
  }

  class FileWatcher {
    const delimiter: string
    const host: string
    const filename: string
    var file: bool            // whether the file is open
    var currentSourceId: nat  // fresh for each opening
    var currentOffset: nat
    var workingBuf: string
    var published: seq<RawEvent>
    ghost var contents: seq<string>
    ghost var found: seq<seq<ParserEvent>>  // the events of each opening, with the starts their calls gave them

    /** Opening by opening, what is published are the complete pieces of the content read, with offsets that add up the
        starts since the file was opened; the buffer is what follows the last delimiter of the current file. */
    ghost predicate Valid()
      reads this
    {
      && delimiter != ""
      && |found| == |contents| == currentSourceId
      && (forall k :: 0 <= k < |found| ==> OpeningOk(found[k], contents[k], delimiter))
      && published == AllPublished(found, host, filename)
      && (file ==>
            && contents != []
            && workingBuf == Rest(contents[|contents| - 1], delimiter)
            && currentOffset == SumOfStarts(found[|found| - 1]))
    }

    constructor (delimiter: string, host: string, filename: string)
      requires delimiter != ""
      ensures Valid() && !file && contents == []
    {
      this.delimiter, this.host, this.filename := delimiter, host, filename;
      file, currentSourceId, currentOffset, workingBuf, published, contents, found := false, 0, 0, "", [], [], [];
    }

    method HandleEvents()
      requires delimiter != ""
      modifies `published, `currentOffset, `workingBuf
      ensures var evts := EventsOf(Pieces(old(workingBuf), delimiter), delimiter);
              && published == old(published) + Published(evts, host, filename, currentSourceId, old(currentOffset))
              && currentOffset == old(currentOffset) + SumOfStarts(evts)
      ensures workingBuf == Rest(old(workingBuf), delimiter)
    {
      hide Pieces, Rest, EventsOf;
      var splitResult := Split(workingBuf, delimiter);
      ghost var all := splitResult.events;
      for i := 0 to |splitResult.events|
        invariant currentOffset == old(currentOffset) + SumOfStarts(all[..i])
        invariant published ==
          old(published) + Published(all[..i], host, filename, currentSourceId, old(currentOffset))
      {
        var res := splitResult.events[i];
        var evt := RawEvent(res.raw, host, filename, currentSourceId, currentOffset);
        assert all[..i + 1][..i] == all[..i];
        published := published + [evt];
        currentOffset := currentOffset + res.offset;
      }
      assert all[..|all|] == all;
      workingBuf := splitResult.remainder;
    }

    /** One read: the buffer grows, and is cut if it holds a delimiter. */
    method HandleRead(chunk: string)
      requires Valid() && file
      modifies this
      ensures Valid() && file && contents == AppendToLast(old(contents), chunk)
    {
      hide Published, AllPublished, Pieces, Complete, SumOfStarts, OpeningOk, EventsOf;
      ghost var n := |contents| - 1;
      workingBuf := workingBuf + chunk;
      ghost var buffer := workingBuf;
      ghost var more := EventsOf(Pieces(buffer, delimiter), delimiter);
      OpeningGrows(found[n], contents[n], chunk, delimiter);
      AllPublishedGrows(found, more, host, filename);
      SumAppend(found[n], more);
      SplitContinues(contents[n], chunk, delimiter);
      var canSplit := IndexOf(workingBuf, delimiter).Some?;
      if canSplit {
        HandleEvents();
      } else {
        NothingToSplit(buffer, delimiter, host, filename, currentSourceId, currentOffset);
        assert published + [] == published;
      }
      contents, found := AppendToLast(contents, chunk), found[n := found[n] + more];
      assert published == AllPublished(found, host, filename);
      assert workingBuf == Rest(contents[n], delimiter);
      assert currentOffset == SumOfStarts(found[n]);
      forall k | 0 <= k < |found|
        ensures OpeningOk(found[k], contents[k], delimiter)
      {
        assert k < n ==> OpeningOk(old(found)[k], old(contents)[k], delimiter);
      }
    }

    /** The read loop, given what the reads return. */
    method ReadToEnd(chunks: seq<string>)
      requires Valid() && file
      modifies this
      ensures Valid() && file && contents == AppendToLast(old(contents), Flatten(chunks))
    {
      ghost var start := contents;
      assert start[|start| - 1] + "" == start[|start| - 1];
      for i := 0 to |chunks|
        invariant Valid() && file
        invariant contents == AppendToLast(start, Flatten(chunks[..i]))
      {
        assert chunks[..i + 1] == chunks[..i] + [chunks[i]];
        FlattenSnoc(chunks[..i], chunks[i]);
        AppendTwice(start, Flatten(chunks[..i]), chunks[i]);
        HandleRead(chunks[i]);
      }
      assert chunks[..|chunks|] == chunks;
    }

    /** The file is opened: it gets a new source id, and what was left in the buffer is forgotten. */
    method Open()
      requires Valid() && !file
      modifies this
      ensures Valid() && file && contents == old(contents) + [""]
    {
      assert Published([], host, filename, currentSourceId + 1, 0) == [] && SumOfStarts([]) == 0;
      hide Published, Pieces, Complete, Rest, EventsOf, SumOfStarts;
      file := true;
      currentSourceId := currentSourceId + 1;
      currentOffset := 0;
      workingBuf := "";
      ghost var was, wasFound := contents, found;
      contents, found := contents + [""], found + [[]];
      NothingToSplit("", delimiter, host, filename, currentSourceId, 0);
      assert contents[..|contents| - 1] == was && found[..|found| - 1] == wasFound;
      assert published + [] == published;
    }

    /** One turn of Start. A reopen reads the old file to its end and then forgets its unfinished last piece. */
    method OneTurn(turn: Turn)
      requires Valid()
      modifies this
      ensures Valid()
      ensures (file, contents) == ContentsStep((old(file), old(contents)), turn)
    {
      if turn.reopen && file {
        ReadToEnd(turn.before);
        file := false;
      }
      if !file && turn.opens {
        Open();
      }
      if file {
        ReadToEnd(turn.chunks);
      }
    }

    /** However the bytes of the files are cut into reads, the texts published are the complete pieces of the
        contents, file by file. */
    method Start(turns: seq<Turn>)
      requires Valid() && !file && contents == []
      modifies this
      ensures Valid() && (file, contents) == Contents(turns)
      ensures exists at :: AreOpenings(at, turns) && AreContents(contents, at, turns)
      ensures exists parts :: Flatten(parts) == published && AreParts(parts, contents, delimiter, host, filename)
      ensures RawTexts(published) == AllComplete(Contents(turns).1, delimiter)
      ensures |found| == |Contents(turns).1| && published == AllPublished(found, host, filename)
      ensures forall k :: 0 <= k < |found| ==> OpeningOk(found[k], Contents(turns).1[k], delimiter)
    {
      for i := 0 to |turns|
        invariant Valid() && (file, contents) == Contents(turns[..i])
      {
        assert turns[..i + 1][..i] == turns[..i];
        OneTurn(turns[i]);
      }
      assert turns[..|turns|] == turns;
      TextsOfAll(found, contents, host, filename, delimiter);
      ghost var at := ContentsByTurns(turns);
      ghost var parts := PartsOf(found, contents, host, filename, delimiter);
    }
  }

  // ---- Offsets ----

  /** Published offsets are not positions in the file: the offset advances by where an event starts, not by how long it
      is. However an opened file is cut into reads, the second event published gets the offset 0 of the first, so that
      the offsets are positions if and only if at most one event was published since the file was opened. */
  lemma OffsetsRightIff(events: seq<ParserEvent>, content: string, d: string, host: string, source: string, id: nat)
    requires d != "" && OpeningOk(events, content, d)
    ensures |events| <= |Pieces(content, d)|
    ensures var ps := Published(events, host, source, id, 0);
            && (|ps| > 0 ==> ps[0].offset == 0)
            && (|ps| > 1 ==> ps[1].offset == 0)
            && ((forall i :: 0 <= i < |ps| ==> ps[i].offset == StartOf(Pieces(content, d), d, i)) <==> |ps| <= 1)
  {
    var pieces := Pieces(content, d);
    var ps := Published(events, host, source, id, 0);
    assert |events| == |Raws(events)| == |pieces| - 1;
    assert StartOf(pieces, d, 0) == 0;
    if |events| > 0 {
      PublishedAt(events, host, source, id, 0, 0);
    }
    if |events| > 1 {
      PublishedAt(events, host, source, id, 0, 1);
      assert events[..1] == [events[0]];
      assert SumOfStarts([events[0]]) == 0;
      assert StartOf(pieces, d, 1) == StartOf(pieces, d, 0) + |pieces[0]| + |d|;
      assert ps[1].offset != StartOf(pieces, d, 1);
    }
  }

  lemma {:induction false} SumsGrow(events: seq<ParserEvent>, m: nat, n: nat)
    requires m <= n <= |events|
    ensures SumOfStarts(events[..m]) <= SumOfStarts(events[..n])
    ensures SumOfStarts(events[..m]) == SumOfStarts(events[..n]) <==> forall k :: m <= k < n ==> events[k].offset == 0
  {
    if m < n {
      SumsGrow(events, m, n - 1);
      assert events[..n][..n - 1] == events[..n - 1];
    }
  }

  /** Two events of one opening have the same offset if and only if the earlier one and all between them were the first
      of their calls; so all the events of a log that is written, and read, line by line have offset 0. */
  lemma SameOffsetIff(events: seq<ParserEvent>, host: string, source: string, id: nat, m: nat, n: nat)
    requires m < n < |events|
    ensures var ps := Published(events, host, source, id, 0);
            ps[m].offset == ps[n].offset <==> forall k :: m <= k < n ==> events[k].offset == 0
  {
    PublishedAt(events, host, source, id, 0, m);
    PublishedAt(events, host, source, id, 0, n);
    SumsGrow(events, m, n);
  }
}
