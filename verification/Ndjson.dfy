/**
 The newline-delimited JSON interceptor: an incremental line splitter with a bounded buffer, in
 passthrough mode (forward everything, show parsed lines to a callback) and in hold mode (ask the
 callback about each parsed line, then forward, drop or replace it). Streams are character
 sequences; the batch functions below say what a stream means regardless of its chunks.
 */
module Ndjson {
  import opened Prelude

  const MAX_BUFFER_SIZE: nat := 10 * 1024 * 1024

  // ---- A stream as lines and an unfinished tail

  function Tail(s: string): (t: string)
    ensures '\n' !in t && |t| <= |s|
  {
    if s == [] || s[|s| - 1] == '\n' then [] else Tail(s[..|s| - 1]) + [s[|s| - 1]]
  }

  function Lines(s: string): (ls: seq<string>)
    ensures forall l <- ls :: '\n' !in l
  {
    if s == [] then []
    else
      var init := s[..|s| - 1];
      if s[|s| - 1] == '\n' then Lines(init) + [Tail(init)] else Lines(init)
  }

  /** Each line with its newline back. */
  function Join(lines: seq<string>): string {
    if lines == [] then [] else Join(lines[..|lines| - 1]) + lines[|lines| - 1] + "\n"
  }

  function Flat(chunks: seq<string>): string {
    if chunks == [] then [] else Flat(chunks[..|chunks| - 1]) + chunks[|chunks| - 1]
  }

  predicate WithinLimit(s: string) {
    |Tail(s)| <= MAX_BUFFER_SIZE && forall l <- Lines(s) :: |l| <= MAX_BUFFER_SIZE
  }

  lemma SplitSnoc(s: string, c: char)
    ensures Lines(s + [c]) == if c == '\n' then Lines(s) + [Tail(s)] else Lines(s)
    ensures Tail(s + [c]) == if c == '\n' then "" else Tail(s) + [c]
  {
    assert (s + [c])[..|s|] == s;
  }

  lemma {:induction false} SplitIsExact(s: string)
    ensures s == Join(Lines(s)) + Tail(s)
  {
    hide Join, Lines, Tail;
    if s == [] {
      NothingSplit();
    } else {
      var init, c := s[..|s| - 1], s[|s| - 1];
      assert s == init + [c];
      SplitIsExact(init);
      SplitSnoc(init, c);
      JoinSnoc(Lines(init), Tail(init));
    }
  }

  lemma NothingSplit()
    ensures Lines("") == [] && Tail("") == "" && Join([]) == ""
  {
  }

  /** There is only one way to cut a stream into newline-free lines and a newline-free tail. */
  lemma {:induction false} SplitIsUnique(s: string, lines: seq<string>, tail: string)
    requires s == Join(lines) + tail && '\n' !in tail && forall l <- lines :: '\n' !in l
    ensures Lines(s) == lines && Tail(s) == tail
    decreases |lines|, |tail|
  {
    if tail != [] {
      assert s[..|s| - 1] == Join(lines) + tail[..|tail| - 1];
      SplitIsUnique(s[..|s| - 1], lines, tail[..|tail| - 1]);
    } else if lines != [] {
      var last := lines[|lines| - 1];
      assert last in lines;
      assert s[..|s| - 1] == Join(lines[..|lines| - 1]) + last;
      assert s[|s| - 1] == '\n';
      SplitIsUnique(s[..|s| - 1], lines[..|lines| - 1], last);
    }
  }

  lemma {:induction false} JoinAppend(a: seq<string>, b: seq<string>)
    ensures Join(a + b) == Join(a) + Join(b)
  {
    if b == [] {
      assert a + b == a;
    } else {
      assert (a + b)[..|a + b| - 1] == a + b[..|b| - 1];
      JoinAppend(a, b[..|b| - 1]);
    }
  }

  lemma SplitAppend(a: string, b: string)
    ensures Lines(a + b) == Lines(a) + Lines(Tail(a) + b) && Tail(a + b) == Tail(Tail(a) + b)
  {
    hide Lines, Tail, Join;
    var rest := Tail(a) + b;
    var la, lr, t := Lines(a), Lines(rest), Tail(rest);
    SplitIsExact(a);
    SplitIsExact(rest);
    JoinAppend(la, lr);
    assert a + b == Join(la) + rest;
    assert Join(la) + (Join(lr) + t) == (Join(la) + Join(lr)) + t;
    SplitIsUnique(a + b, la + lr, t);
  }

  lemma NoNewline(s: string)
    requires '\n' !in s
    ensures Lines(s) == [] && Tail(s) == s
  {
    SplitIsUnique(s, [], s);
  }

  lemma {:induction false} WithinLimitPrefix(a: string, b: string)
    requires WithinLimit(a + b)
    ensures WithinLimit(a)
    decreases |b|
  {
    if b == [] {
      assert a + b == a;
    } else {
      var s := a + b;
      assert s[..|s| - 1] == a + b[..|b| - 1];
      assert WithinLimit(a + b[..|b| - 1]) by {
        forall l | l in Lines(s[..|s| - 1]) ensures l in Lines(s) {}
        if s[|s| - 1] == '\n' { assert Tail(s[..|s| - 1]) in Lines(s); }
      }
      WithinLimitPrefix(a, b[..|b| - 1]);
    }
  }

  lemma {:induction false} FlatSnoc(chunks: seq<string>, c: string)
    ensures Flat(chunks + [c]) == Flat(chunks) + c
  {
    assert (chunks + [c])[..|chunks|] == chunks;
  }

  // ---- Pieces

  /** What the splitter makes of the characters it is given: a complete line, the unfinished line at the end of the
      stream, a chunk forwarded as it came because it would overflow the buffer, or characters it drops. */
  datatype Piece = Line(text: string) | Rest(text: string) | Unjudged(text: string) | Lost(text: string)

  /** The characters of the stream that the piece stands for. */
  function Raw(p: Piece): string {
    if p.Line? then p.text + "\n" else p.text
  }

  function RawAll(ps: seq<Piece>): string {
    if ps == [] then "" else RawAll(ps[..|ps| - 1]) + Raw(ps[|ps| - 1])
  }

  function AsLines(lines: seq<string>): (ps: seq<Piece>)
    ensures |ps| == |lines| && forall i :: 0 <= i < |ps| ==> ps[i] == Line(lines[i])
  {
    seq(|lines|, i requires 0 <= i < |lines| => Line(lines[i]))
  }

  function RestOf(tail: string): seq<Piece> {
    if tail == "" then [] else [Rest(tail)]
  }

  function LostOf(text: string): seq<Piece> {
    if text == "" then [] else [Lost(text)]
  }

  /** The pieces of a stream regardless of its chunks: its lines, then its tail. */
  function BatchPieces(s: string): seq<Piece> {
    AsLines(Lines(s)) + RestOf(Tail(s))
  }

  lemma RawSnoc(ps: seq<Piece>, p: Piece)
    ensures RawAll(ps + [p]) == RawAll(ps) + Raw(p)
  {
    assert (ps + [p])[..|ps|] == ps;
  }

  lemma {:induction false} RawAppend(a: seq<Piece>, b: seq<Piece>)
    ensures RawAll(a + b) == RawAll(a) + RawAll(b)
  {
    RawOne(Rest(""));
    hide RawAll, Raw;
    if b == [] {
      assert a + b == a;
    } else {
      var init, last := b[..|b| - 1], b[|b| - 1];
      assert a + b == (a + init) + [last] && b == init + [last];
      RawAppend(a, init);
      RawSnoc(a + init, last);
      RawSnoc(init, last);
    }
  }

  lemma RawOne(p: Piece)
    ensures RawAll([p]) == Raw(p) && RawAll([]) == ""
  {
    assert [p][..0] == [];
  }

  lemma {:induction false} RawLines(lines: seq<string>)
    ensures RawAll(AsLines(lines)) == Join(lines)
  {
    if lines != [] {
      RawLines(lines[..|lines| - 1]);
      assert AsLines(lines)[..|lines| - 1] == AsLines(lines[..|lines| - 1]);
      assert Join(lines[..|lines| - 1]) + (lines[|lines| - 1] + "\n") == Join(lines[..|lines| - 1]) + lines[|lines| - 1] + "\n";
    }
  }

  // ---- Decisions

  /** What the callback does with a message: `errorResponse` is optional, and it may throw. */
  datatype Decision = Allow | Deny(errorResponse: Option<string>) | Throw

  /** The line parser and the callback, with what it writes elsewhere while deciding. The answer to the k-th call may
      depend on everything that happened before it, hence on k. */
  datatype Handler<W> = Handler(parses: string -> bool, decide: (nat, string) -> Decision, writes: (nat, string) -> seq<W>)

  /** Complete lines are only asked about within the limit; the unfinished one always is. */
  predicate Asked<W>(h: Handler<W>, p: Piece) {
    match p
    case Line(l) => |l| <= MAX_BUFFER_SIZE && h.parses(l)
    case Rest(t) => h.parses(t)
    case Unjudged(_) => false
    case Lost(_) => false
  }

  function WithNewline(s: string): string {
    if |s| > 0 && s[|s| - 1] == '\n' then s else s + "\n"
  }

  /** What a piece turns into when it is the subject of call `k`. */
  function PieceOut<W>(h: Handler<W>, p: Piece, k: nat): string {
    if p.Lost? then ""
    else if !Asked(h, p) then Raw(p)
    else match h.decide(k, p.text)
      case Allow => Raw(p)
      case Throw => Raw(p)
      case Deny(e) => if e.None? || e.value == "" then "" else if p.Line? then WithNewline(e.value) else e.value
  }

  /** What each piece turns into. A line that is not asked about, allowed or thrown on comes out with its newline; denied, it
      gives way to the response, which gets a newline if it has none, or to nothing. The unfinished end comes out as it is,
      or gives way to the response as that is. */
  lemma PieceOutExactly<W>(h: Handler<W>, p: Piece, k: nat)
    ensures var out := PieceOut(h, p, k);
            match p
            case Lost(_) => out == ""
            case Unjudged(t) => out == t
            case Line(t) =>
              if |t| > 10485760 || !h.parses(t) then out == t + "\n"
              else (match h.decide(k, t)
                    case Deny(None) => out == ""
                    case Deny(Some(e)) =>
                      && (e == "" ==> out == "")
                      && (e != "" && e[|e| - 1] == '\n' ==> out == e)
                      && (e != "" && e[|e| - 1] != '\n' ==> out == e + "\n")
                    case _ => out == t + "\n")
            case Rest(t) =>
              if !h.parses(t) then out == t
              else (match h.decide(k, t)
                    case Deny(None) => out == ""
                    case Deny(Some(e)) => out == e
                    case _ => out == t)
  {
  }

  function Calls<W>(h: Handler<W>, ps: seq<Piece>): nat {
    if ps == [] then 0 else Calls(h, ps[..|ps| - 1]) + if Asked(h, ps[|ps| - 1]) then 1 else 0
  }

  /** The output for a list of pieces, the first of which is the subject of call `k` if it is asked about. */
  function Out<W>(h: Handler<W>, ps: seq<Piece>, k: nat): string {
    if ps == [] then ""
    else Out(h, ps[..|ps| - 1], k) + PieceOut(h, ps[|ps| - 1], k + Calls(h, ps[..|ps| - 1]))
  }

  /** What the callback writes elsewhere meanwhile. */
  function Written<W>(h: Handler<W>, ps: seq<Piece>, k: nat): seq<W> {
    if ps == [] then []
    else Written(h, ps[..|ps| - 1], k)
         + if Asked(h, ps[|ps| - 1]) then h.writes(k + Calls(h, ps[..|ps| - 1]), ps[|ps| - 1].text) else []
  }

  /** The texts the passthrough callback is shown. */
  function Shown<W>(h: Handler<W>, ps: seq<Piece>): seq<string> {
    if ps == [] then []
    else Shown(h, ps[..|ps| - 1]) + if Asked(h, ps[|ps| - 1]) then [ps[|ps| - 1].text] else []
  }

  /** The batch meaning of a whole stream in hold mode, and what the passthrough callback is shown of it. */
  function BatchOut<W>(h: Handler<W>, s: string): string {
    Out(h, BatchPieces(s), 0)
  }

  function BatchShown<W>(h: Handler<W>, s: string): seq<string> {
    Shown(h, BatchPieces(s))
  }

  lemma OutSnoc<W>(h: Handler<W>, ps: seq<Piece>, p: Piece, k: nat)
    ensures Out(h, ps + [p], k) == Out(h, ps, k) + PieceOut(h, p, k + Calls(h, ps))
    ensures Calls(h, ps + [p]) == Calls(h, ps) + if Asked(h, p) then 1 else 0
    ensures Written(h, ps + [p], k) == Written(h, ps, k) + if Asked(h, p) then h.writes(k + Calls(h, ps), p.text) else []
    ensures Shown(h, ps + [p]) == Shown(h, ps) + if Asked(h, p) then [p.text] else []
  {
    assert (ps + [p])[..|ps|] == ps;
  }

  /** Of complete lines, exactly those that parse and are not too long are asked about and shown, in order. */
  lemma {:induction false} ShownExactly<W>(h: Handler<W>, lines: seq<string>, keep: set<string>)
    requires forall l <- lines :: l in keep <==> h.parses(l) && |l| <= 10485760
    ensures IsFilter(Shown(h, AsLines(lines)), lines, keep) && Calls(h, AsLines(lines)) == |Shown(h, AsLines(lines))|
  {
    hide IsFilter, Shown, Calls, Out, Written;
    if lines == [] {
      NoPieces(h, 0);
      FilterNothing(keep);
    } else {
      var init, l := lines[..|lines| - 1], lines[|lines| - 1];
      assert lines == init + [l] && l in lines && forall x <- init :: x in lines;
      ShownExactly(h, init, keep);
      var shown := Shown(h, AsLines(init));
      assert Asked(h, Line(l)) <==> l in keep;
      assert AsLines(lines) == AsLines(init) + [Line(l)];
      hide Asked, AsLines;
      OutSnoc(h, AsLines(init), Line(l), 0);
      FilterSnoc(shown, init, keep, l);
      assert shown + [] == shown;
    }
  }

  lemma NoPieces<W>(h: Handler<W>, k: nat)
    ensures Out(h, [], k) == "" && Calls(h, []) == 0 && Written(h, [], k) == [] && Shown(h, []) == []
  {
  }

  lemma {:induction false} OutAppend<W>(h: Handler<W>, a: seq<Piece>, b: seq<Piece>, k: nat)
    ensures Calls(h, a + b) == Calls(h, a) + Calls(h, b)
    ensures Out(h, a + b, k) == Out(h, a, k) + Out(h, b, k + Calls(h, a))
    ensures Written(h, a + b, k) == Written(h, a, k) + Written(h, b, k + Calls(h, a))
    ensures Shown(h, a + b) == Shown(h, a) + Shown(h, b)
  {
    hide PieceOut, Out, Calls, Written, Shown, Asked;
    if b == [] {
      assert a + b == a;
      NoPieces(h, k + Calls(h, a));
    } else {
      var init, last := b[..|b| - 1], b[|b| - 1];
      assert a + b == (a + init) + [last] && b == init + [last];
      OutAppend(h, a, init, k);
      OutSnoc(h, a + init, last, k);
      OutSnoc(h, init, last, k + Calls(h, a));
    }
  }

  // ---- The incremental splitter as a state machine

  datatype State<W> = State(buf: string, out: string, calls: nat, seen: seq<string>, written: seq<W>)

  function Fresh<W>(): State<W> {
    State("", "", 0, [], [])
  }

  predicate Overflows(buf: string, chunk: string) {
    '\n' !in chunk && |buf| + |chunk| > MAX_BUFFER_SIZE
  }

  /** The buffer after a chunk: dropped when it would overflow, otherwise the unfinished tail. */
  function NextBuf(buf: string, chunk: string): (b: string)
    requires '\n' !in buf
    ensures '\n' !in b && |b| <= MAX_BUFFER_SIZE
  {
    if Overflows(buf, chunk) then ""
    else if '\n' !in chunk then buf + chunk
    else if |Tail(buf + chunk)| > MAX_BUFFER_SIZE then "" else Tail(buf + chunk)
  }

  /** The pieces that a chunk completes. */
  function ChunkPieces(buf: string, chunk: string): seq<Piece> {
    if Overflows(buf, chunk) then LostOf(buf) + [Unjudged(chunk)]
    else if '\n' !in chunk then []
    else
      var tail := Tail(buf + chunk);
      AsLines(Lines(buf + chunk)) + if |tail| > MAX_BUFFER_SIZE then [Lost(tail)] else []
  }

  function FeedHold<W>(h: Handler<W>, st: State<W>, chunk: string): State<W>
    requires '\n' !in st.buf
  {
    var ps := ChunkPieces(st.buf, chunk);
    State(NextBuf(st.buf, chunk), st.out + Out(h, ps, st.calls), st.calls + Calls(h, ps), st.seen,
          st.written + Written(h, ps, st.calls))
  }

  function FeedPass<W>(h: Handler<W>, st: State<W>, chunk: string): State<W>
    requires '\n' !in st.buf
  {
    st.(buf := NextBuf(st.buf, chunk), out := st.out + chunk, seen := st.seen + Shown(h, ChunkPieces(st.buf, chunk)))
  }

  function Feed<W>(hold: bool, h: Handler<W>, st: State<W>, chunk: string): (r: State<W>)
    requires '\n' !in st.buf
    ensures '\n' !in r.buf && |r.buf| <= MAX_BUFFER_SIZE
  {
    if hold then FeedHold(h, st, chunk) else FeedPass(h, st, chunk)
  }

  function FeedAll<W>(hold: bool, h: Handler<W>, chunks: seq<string>): (r: State<W>)
    ensures '\n' !in r.buf && |r.buf| <= MAX_BUFFER_SIZE
  {
    if chunks == [] then Fresh()
    else Feed(hold, h, FeedAll(hold, h, chunks[..|chunks| - 1]), chunks[|chunks| - 1])
  }

  function Flush<W>(hold: bool, h: Handler<W>, st: State<W>): State<W> {
    var ps := RestOf(st.buf);
    if hold then State("", st.out + Out(h, ps, st.calls), st.calls + Calls(h, ps), st.seen,
                       st.written + Written(h, ps, st.calls))
    else st.(buf := "", seen := st.seen + Shown(h, ps))
  }

  // ---- What any chunking amounts to

  /** The buffer after the chunks; it depends on nothing the callback does. */
  function Buf(chunks: seq<string>): (b: string)
    ensures '\n' !in b && |b| <= MAX_BUFFER_SIZE
  {
    if chunks == [] then "" else NextBuf(Buf(chunks[..|chunks| - 1]), chunks[|chunks| - 1])
  }

  function Pieces(chunks: seq<string>): seq<Piece> {
    if chunks == [] then []
    else Pieces(chunks[..|chunks| - 1]) + ChunkPieces(Buf(chunks[..|chunks| - 1]), chunks[|chunks| - 1])
  }

  function AllPieces(chunks: seq<string>): seq<Piece> {
    Pieces(chunks) + RestOf(Buf(chunks))
  }

  lemma {:induction false} FedState<W>(hold: bool, h: Handler<W>, chunks: seq<string>)
    ensures var ps := Pieces(chunks);
            FeedAll(hold, h, chunks) == if hold then State(Buf(chunks), Out(h, ps, 0), Calls(h, ps), [], Written(h, ps, 0))
                                        else State(Buf(chunks), Flat(chunks), 0, Shown(h, ps), [])
  {
    hide ChunkPieces, NextBuf, Out, Calls, Written, Shown;
    if chunks == [] {
      NoPieces(h, 0);
    } else {
      var before, c := chunks[..|chunks| - 1], chunks[|chunks| - 1];
      FedState(hold, h, before);
      OutAppend(h, Pieces(before), ChunkPieces(Buf(before), c), 0);
    }
  }

  /** Hold mode, any stream in any chunks: the output and the writes are those of its pieces in order. */
  lemma HoldJudgesPieces<W>(h: Handler<W>, chunks: seq<string>)
    ensures var end := Flush(true, h, FeedAll(true, h, chunks));
            end.out == Out(h, AllPieces(chunks), 0) && end.written == Written(h, AllPieces(chunks), 0)
  {
    hide Out, Calls, Written, Shown, FeedAll, Pieces, Buf, RestOf;
    FedState(true, h, chunks);
    OutAppend(h, Pieces(chunks), RestOf(Buf(chunks)), 0);
  }

  /** Passthrough mode, any stream in any chunks: the callback is shown the pieces that are asked about. */
  lemma PassthroughShowsPieces<W>(h: Handler<W>, chunks: seq<string>)
    ensures Flush(false, h, FeedAll(false, h, chunks)).seen == Shown(h, AllPieces(chunks))
  {
    hide Out, Calls, Written, Shown, FeedAll, Pieces, Buf, RestOf;
    FedState(false, h, chunks);
    OutAppend(h, Pieces(chunks), RestOf(Buf(chunks)), 0);
  }

  lemma ChunkConserves(buf: string, chunk: string)
    requires '\n' !in buf
    ensures RawAll(ChunkPieces(buf, chunk)) + NextBuf(buf, chunk) == buf + chunk
  {
    hide RawAll, Lines, Tail, Join;
    if Overflows(buf, chunk) {
      RawAppend(LostOf(buf), [Unjudged(chunk)]);
      RawOne(Lost(buf));
      RawOne(Unjudged(chunk));
    } else if '\n' !in chunk {
      RawOne(Lost(buf));
    } else {
      var lines, tail := Lines(buf + chunk), Tail(buf + chunk);
      SplitIsExact(buf + chunk);
      RawLines(lines);
      RawAppend(AsLines(lines), if |tail| > MAX_BUFFER_SIZE then [Lost(tail)] else []);
      RawOne(Lost(tail));
    }
  }

  lemma {:induction false} PiecesAndBuffer(chunks: seq<string>)
    ensures RawAll(Pieces(chunks)) + Buf(chunks) == Flat(chunks)
  {
    hide ChunkPieces, NextBuf, RawAll;
    if chunks == [] {
      RawOne(Rest(""));
    } else {
      var before, c := chunks[..|chunks| - 1], chunks[|chunks| - 1];
      var ps := ChunkPieces(Buf(before), c);
      PiecesAndBuffer(before);
      ChunkConserves(Buf(before), c);
      RawAppend(Pieces(before), ps);
      assert (RawAll(Pieces(before)) + RawAll(ps)) + Buf(chunks) == RawAll(Pieces(before)) + (RawAll(ps) + Buf(chunks));
    }
  }

  /** No character of the stream is in two pieces or in none. */
  lemma PiecesConserve(chunks: seq<string>)
    ensures RawAll(AllPieces(chunks)) == Flat(chunks)
  {
    hide RawAll, Pieces, Buf;
    PiecesAndBuffer(chunks);
    RawAppend(Pieces(chunks), RestOf(Buf(chunks)));
    RawOne(Rest(Buf(chunks)));
  }

  // ---- When every chunking agrees with the batch meaning

  /** Whatever the chunks leave unfinished fits into the buffer; complete lines may have any length. */
  ghost predicate TailsFit(chunks: seq<string>) {
    forall i {:trigger chunks[..i]} :: 0 <= i <= |chunks| ==> |Tail(Flat(chunks[..i]))| <= MAX_BUFFER_SIZE
  }

  lemma TailsFitSnoc(chunks: seq<string>, c: string)
    ensures TailsFit(chunks + [c]) <==> TailsFit(chunks) && |Tail(Flat(chunks) + c)| <= MAX_BUFFER_SIZE
  {
    var all := chunks + [c];
    FlatSnoc(chunks, c);
    hide Tail, Flat;
    assert all[..|all|] == all;
    if TailsFit(chunks) && |Tail(Flat(chunks) + c)| <= MAX_BUFFER_SIZE {
      forall i | 0 <= i <= |all| ensures |Tail(Flat(all[..i]))| <= MAX_BUFFER_SIZE {
        if i <= |chunks| { assert all[..i] == chunks[..i]; }
      }
    }
    if TailsFit(all) {
      forall i | 0 <= i <= |chunks| ensures |Tail(Flat(chunks[..i]))| <= MAX_BUFFER_SIZE {
        assert all[..i] == chunks[..i];
      }
    }
  }

  lemma NoTail()
    ensures TailsFit([]) && Tail("") == "" && Lines("") == []
  {
    var none: seq<string> := [];
    assert forall i :: 0 <= i <= |none| ==> none[..i] == [];
  }

  lemma LinesJoin(a: seq<string>, b: seq<string>)
    ensures AsLines(a + b) == AsLines(a) + AsLines(b)
  {
  }

  lemma {:induction false} PiecesAreLines(chunks: seq<string>)
    requires TailsFit(chunks)
    ensures Pieces(chunks) == AsLines(Lines(Flat(chunks))) && Buf(chunks) == Tail(Flat(chunks))
  {
    hide Lines, Tail, TailsFit, AsLines;
    if chunks == [] {
      NoTail();
    } else {
      var before, c := chunks[..|chunks| - 1], chunks[|chunks| - 1];
      assert chunks == before + [c];
      TailsFitSnoc(before, c);
      PiecesAreLines(before);
      var s := Flat(before);
      SplitAppend(s, c);
      if '\n' !in c { NoNewline(Tail(s) + c); }
      assert ChunkPieces(Tail(s), c) == AsLines(Lines(Tail(s) + c)) + [];
      LinesJoin(Lines(s), Lines(Tail(s) + c));
    }
  }

  lemma {:induction false} UnfitLeavesTrace(chunks: seq<string>)
    requires !TailsFit(chunks)
    ensures exists p :: p in Pieces(chunks) && (p.Unjudged? || p.Lost?)
  {
    hide Lines, Tail, TailsFit;
    if chunks == [] {
      NoTail();
    } else {
      var before, c := chunks[..|chunks| - 1], chunks[|chunks| - 1];
      assert chunks == before + [c];
      TailsFitSnoc(before, c);
      var ps := ChunkPieces(Buf(before), c);
      if TailsFit(before) {
        PiecesAreLines(before);
        SplitAppend(Flat(before), c);
        if '\n' !in c { NoNewline(Tail(Flat(before)) + c); }
        assert ps[|ps| - 1].Unjudged? || ps[|ps| - 1].Lost?;
        assert ps[|ps| - 1] in Pieces(chunks);
      } else {
        UnfitLeavesTrace(before);
      }
    }
  }

  /** The pieces are the stream's own lines and tail, however it is cut, exactly when its chunks leave nothing
      unfinished that is too long for the buffer. */
  lemma PiecesAreLinesExactly(chunks: seq<string>)
    ensures AllPieces(chunks) == BatchPieces(Flat(chunks)) <==> TailsFit(chunks)
  {
    hide Lines, Tail, TailsFit, Pieces, Buf, Flat;
    if TailsFit(chunks) {
      PiecesAreLines(chunks);
    } else {
      UnfitLeavesTrace(chunks);
      var p :| p in Pieces(chunks) && (p.Unjudged? || p.Lost?);
      assert p in AllPieces(chunks) && p !in BatchPieces(Flat(chunks));
    }
  }

  /** Hold mode: however the stream is cut, the output is the batch output. */
  lemma HoldRefinesBatch<W>(h: Handler<W>, chunks: seq<string>)
    requires TailsFit(chunks)
    ensures Flush(true, h, FeedAll(true, h, chunks)).out == BatchOut(h, Flat(chunks))
  {
    hide Flush, FeedAll, Out, AllPieces, BatchPieces, TailsFit;
    HoldJudgesPieces(h, chunks);
    PiecesAreLinesExactly(chunks);
  }

  /** Passthrough mode: the callback sees exactly the parsed lines, in order. */
  lemma PassthroughShowsBatch<W>(h: Handler<W>, chunks: seq<string>)
    requires TailsFit(chunks)
    ensures Flush(false, h, FeedAll(false, h, chunks)).seen == BatchShown(h, Flat(chunks))
  {
    hide Flush, FeedAll, Shown, AllPieces, BatchPieces, TailsFit;
    PassthroughShowsPieces(h, chunks);
    PiecesAreLinesExactly(chunks);
  }

  /** Passthrough mode forwards any stream unchanged, oversized lines included. */
  lemma {:induction false} PassthroughForwardsAll<W>(h: Handler<W>, chunks: seq<string>)
    ensures Flush(false, h, FeedAll(false, h, chunks)).out == Flat(chunks)
  {
    if chunks != [] {
      PassthroughForwardsAll(h, chunks[..|chunks| - 1]);
    }
  }

  // ---- When hold mode is transparent

  ghost predicate Forwards<W>(h: Handler<W>) {
    forall k, l :: h.parses(l) ==> !h.decide(k, l).Deny?
  }

  /** The chunk makes the splitter discard characters: a buffered prefix when an unfinished line
      overflows, or an oversized tail after a newline. */
  predicate Loses(buf: string, chunk: string) {
    if '\n' !in chunk then buf != "" && |buf| + |chunk| > MAX_BUFFER_SIZE
    else |Tail(buf + chunk)| > MAX_BUFFER_SIZE
  }

  ghost predicate LosesSomewhere(chunks: seq<string>) {
    exists i {:trigger chunks[i]} :: 0 <= i < |chunks| && Loses(Buf(chunks[..i]), chunks[i])
  }

  /** How many characters the pieces drop. */
  function LostSize(ps: seq<Piece>): nat {
    if ps == [] then 0 else LostSize(ps[..|ps| - 1]) + if ps[|ps| - 1].Lost? then |ps[|ps| - 1].text| else 0
  }

  lemma {:induction false} LostAppend(a: seq<Piece>, b: seq<Piece>)
    ensures LostSize(a + b) == LostSize(a) + LostSize(b)
  {
    if b == [] {
      assert a + b == a;
    } else {
      assert (a + b)[..|a + b| - 1] == a + b[..|b| - 1];
      LostAppend(a, b[..|b| - 1]);
    }
  }

  lemma {:induction false} LinesLoseNothing(lines: seq<string>)
    ensures LostSize(AsLines(lines)) == 0
  {
    if lines != [] {
      LinesLoseNothing(lines[..|lines| - 1]);
      assert AsLines(lines)[..|lines| - 1] == AsLines(lines[..|lines| - 1]);
    }
  }

  lemma LostOne(p: Piece)
    ensures LostSize([p]) == (if p.Lost? then |p.text| else 0) && LostSize([]) == 0
  {
    assert [p][..0] == [];
  }

  lemma ChunkLosesExactly(buf: string, chunk: string)
    ensures LostSize(ChunkPieces(buf, chunk)) > 0 <==> Loses(buf, chunk)
  {
    hide LostSize, Lines, Tail;
    LostOne(Lost(buf));
    LostOne(Unjudged(chunk));
    LostOne(Lost(Tail(buf + chunk)));
    LostAppend(LostOf(buf), [Unjudged(chunk)]);
    LinesLoseNothing(Lines(buf + chunk));
    LostAppend(AsLines(Lines(buf + chunk)), if |Tail(buf + chunk)| > MAX_BUFFER_SIZE then [Lost(Tail(buf + chunk))] else []);
  }

  lemma {:induction false} LosesExactly(chunks: seq<string>)
    ensures LostSize(Pieces(chunks)) > 0 <==> LosesSomewhere(chunks)
  {
    hide ChunkPieces, NextBuf, Loses, LostSize, LosesSomewhere;
    if chunks == [] {
      LostOne(Lost(""));
      NothingLostYet();
    } else {
      var n := |chunks| - 1;
      var before, c := chunks[..n], chunks[n];
      LosesExactly(before);
      ChunkLosesExactly(Buf(before), c);
      LostAppend(Pieces(before), ChunkPieces(Buf(before), c));
      LosesLater(before, c);
      assert chunks == before + [c];
    }
  }

  lemma NothingLostYet()
    ensures !LosesSomewhere([])
  {
  }

  lemma LosesLater(chunks: seq<string>, c: string)
    ensures LosesSomewhere(chunks + [c]) <==> LosesSomewhere(chunks) || Loses(Buf(chunks), c)
  {
    hide Buf, Loses;
    var all, n := chunks + [c], |chunks|;
    assert all[..n] == chunks && all[n] == c;
    if LosesSomewhere(chunks) {
      var i :| 0 <= i < n && Loses(Buf(chunks[..i]), chunks[i]);
      assert all[..i] == chunks[..i] && Loses(Buf(all[..i]), all[i]);
    }
    if LosesSomewhere(all) {
      var i :| 0 <= i < |all| && Loses(Buf(all[..i]), all[i]);
      if i < n { assert all[..i] == chunks[..i] && Loses(Buf(chunks[..i]), chunks[i]); }
    }
  }

  lemma {:induction false} ForwardedPieces<W>(h: Handler<W>, ps: seq<Piece>, k: nat)
    requires Forwards(h)
    ensures |Out(h, ps, k)| + LostSize(ps) == |RawAll(ps)|
    ensures LostSize(ps) == 0 ==> Out(h, ps, k) == RawAll(ps)
  {
    if ps != [] {
      var init, p := ps[..|ps| - 1], ps[|ps| - 1];
      ForwardedPieces(h, init, k);
      assert Asked(h, p) ==> !h.decide(k + Calls(h, init), p.text).Deny?;
    }
  }

  /** With a forwarding callback output and buffer are the input until something is lost, and shorter afterwards. */
  lemma FedConserves<W>(h: Handler<W>, chunks: seq<string>)
    requires Forwards(h)
    ensures var st := FeedAll(true, h, chunks);
            && (!LosesSomewhere(chunks) ==> st.out + st.buf == Flat(chunks))
            && (LosesSomewhere(chunks) ==> |st.out| + |st.buf| < |Flat(chunks)|)
  {
    hide FeedAll, Pieces, Buf, Flat, Out, LostSize, RawAll, LosesSomewhere, Forwards;
    FedState(true, h, chunks);
    PiecesAndBuffer(chunks);
    LosesExactly(chunks);
    ForwardedPieces(h, Pieces(chunks), 0);
  }

  /** An always-forwarding callback makes hold mode the identity exactly when no chunk loses anything. */
  lemma TransparentExactly<W>(h: Handler<W>, chunks: seq<string>)
    requires Forwards(h)
    ensures Flush(true, h, FeedAll(true, h, chunks)).out == Flat(chunks) <==> !LosesSomewhere(chunks)
  {
    hide FeedAll, Pieces, Buf, Flat, Out, LostSize, RawAll, LosesSomewhere, Forwards;
    FedConserves(h, chunks);
    var st := FeedAll(true, h, chunks);
    ForwardedPieces(h, RestOf(st.buf), st.calls);
    LostOne(Rest(st.buf));
    RawOne(Rest(st.buf));
  }

  /** If all lines are within the limit, nothing left unfinished overflows, so nothing is lost, under any chunking. */
  lemma WithinLimitLosesNothing(chunks: seq<string>)
    requires WithinLimit(Flat(chunks))
    ensures TailsFit(chunks) && !LosesSomewhere(chunks)
  {
    forall i | 0 <= i <= |chunks| ensures |Tail(Flat(chunks[..i]))| <= MAX_BUFFER_SIZE {
      FlatPrefix(chunks, i);
      WithinLimitPrefix(Flat(chunks[..i]), Flat(chunks)[|Flat(chunks[..i])|..]);
    }
    hide WithinLimit, Tail, Flat, Pieces;
    PiecesAreLines(chunks);
    LinesLoseNothing(Lines(Flat(chunks)));
    LosesExactly(chunks);
  }

  lemma {:induction false} FlatPrefix(chunks: seq<string>, i: nat)
    requires i <= |chunks|
    ensures Flat(chunks[..i]) <= Flat(chunks)
    ensures Flat(chunks) == Flat(chunks[..i]) + Flat(chunks)[|Flat(chunks[..i])|..]
  {
    if i == |chunks| {
      assert chunks[..i] == chunks;
    } else {
      FlatPrefix(chunks[..|chunks| - 1], i);
      assert chunks[..|chunks| - 1][..i] == chunks[..i];
    }
  }

  /** One line arriving in two parts whose total exceeds the limit: whatever the callback, the first part disappears and
      the second goes through without being asked about. */
  lemma OversizedLineLosesItsPrefix(a: string, b: string)
    requires '\n' !in a && '\n' !in b && a != "" && |a| <= MAX_BUFFER_SIZE < |a| + |b|
    ensures AllPieces([a, b]) == [Lost(a), Unjudged(b)] && !TailsFit([a, b])
  {
    hide Lines, Tail, TailsFit;
    assert [a, b][..1] == [a] && [a][..0] == [];
    assert Buf([a]) == a && Pieces([a]) == [];
    assert Pieces([a, b]) == [Lost(a), Unjudged(b)] && Pieces([a, b])[0] == Lost(a);
    if TailsFit([a, b]) {
      PiecesAreLines([a, b]);
    }
  }

  lemma SplitOneLine(line: string)
    requires '\n' !in line
    ensures Lines(line + "\n") == [line] && Tail(line + "\n") == ""
  {
    hide Lines, Tail, Join;
    JoinNone();
    JoinSnoc([], line);
    assert [] + [line] == [line] && "" + line == line;
    SplitIsUnique(line + "\n", [line], "");
  }

  lemma OneLinePieces(line: string)
    requires '\n' !in line
    ensures TailsFit([line + "\n"]) && AllPieces([line + "\n"]) == [Line(line)]
  {
    hide Lines, Tail, TailsFit, Flat, Pieces, Buf;
    var c := line + "\n";
    SplitOneLine(line);
    NoTail();
    NoChunks();
    FlatSnoc([], c);
    TailsFitSnoc([], c);
    assert [] + [c] == [c] && "" + c == c;
    PiecesAreLines([c]);
    assert AsLines([line]) == [Line(line)];
  }

  /** A complete line over the limit is forwarded, whatever the callback would say: here the first line of a stream. */
  lemma OversizedLineIsNotAsked<W>(h: Handler<W>, line: string)
    requires '\n' !in line && |line| > MAX_BUFFER_SIZE
    ensures var end := Flush(true, h, FeedAll(true, h, [line + "\n"]));
            end.out == line + "\n" && end.written == []
  {
    hide AllPieces, Flush, FeedAll, Out, Calls, Written, Shown;
    OneLinePieces(line);
    HoldJudgesPieces(h, [line + "\n"]);
    NoPieces(h, 0);
    OutSnoc(h, [], Line(line), 0);
    assert [] + [Line(line)] == [Line(line)];
  }

  // ---- What the next reader makes of the output

  ghost predicate NewlineFree(ps: seq<Piece>) {
    forall p <- ps :: '\n' !in p.text
  }

  /** Only a line has a newline in it; whatever else comes before joins up with it. */
  function ReadLines(ps: seq<Piece>): seq<string> {
    if ps == [] then []
    else
      var init, last := ps[..|ps| - 1], ps[|ps| - 1];
      ReadLines(init) + if last.Line? then [ReadTail(init) + last.text] else []
  }

  function ReadTail(ps: seq<Piece>): string {
    if ps == [] || ps[|ps| - 1].Line? then "" else ReadTail(ps[..|ps| - 1]) + ps[|ps| - 1].text
  }

  function LineTexts(ps: seq<Piece>): seq<string> {
    if ps == [] then []
    else LineTexts(ps[..|ps| - 1]) + if ps[|ps| - 1].Line? then [ps[|ps| - 1].text] else []
  }

  lemma {:induction false} RawIsRead(ps: seq<Piece>)
    requires NewlineFree(ps)
    ensures Lines(RawAll(ps)) == ReadLines(ps) && Tail(RawAll(ps)) == ReadTail(ps)
  {
    hide Lines, Tail;
    if ps == [] {
      NoTail();
    } else {
      var init, last := ps[..|ps| - 1], ps[|ps| - 1];
      assert last in ps;
      RawIsRead(init);
      SplitAppend(RawAll(init), Raw(last));
      var tail := ReadTail(init) + last.text;
      if last.Line? {
        SplitOneLine(tail);
        assert tail + "\n" == ReadTail(init) + Raw(last);
      } else {
        NoNewline(tail);
      }
    }
  }

  /** No forwarded line has an unjudged chunk somewhere before it. */
  ghost predicate UnjudgedLast(ps: seq<Piece>) {
    forall i, j {:trigger ps[i], ps[j]} :: 0 <= i < j < |ps| && ps[i].Unjudged? ==> !ps[j].Line?
  }

  /** Chunks are forwarded on overflow only if there is something in them, and the unfinished end comes last. */
  ghost predicate WellPlaced(ps: seq<Piece>) {
    && (forall p <- ps :: p.Unjudged? ==> p.text != "")
    && (forall i :: 0 <= i < |ps| - 1 ==> !ps[i].Rest?)
    && (forall p <- ps :: !p.Lost?)
  }

  ghost predicate HasUnjudged(ps: seq<Piece>) {
    exists p :: p in ps && p.Unjudged?
  }

  lemma {:induction false} ReadsItsLinesExactly(ps: seq<Piece>)
    requires WellPlaced(ps)
    ensures ReadLines(ps) == LineTexts(ps) <==> UnjudgedLast(ps)
    ensures UnjudgedLast(ps) && HasUnjudged(ps) ==> ReadTail(ps) != ""
    ensures !HasUnjudged(ps) && (ps != [] ==> !ps[|ps| - 1].Rest?) ==> ReadTail(ps) == ""
  {
    if ps != [] {
      var init, last := ps[..|ps| - 1], ps[|ps| - 1];
      assert last in ps && ps == init + [last];
      ReadsItsLinesExactly(init);
      hide ReadLines, LineTexts, ReadTail;
      UnjudgedLastSnoc(init, last);
      ReadSnoc(init, last);
      SnocEqual(ReadLines(init), ReadTail(init) + last.text, LineTexts(init), last.text);
      assert init != [] ==> !init[|init| - 1].Rest?;
    }
  }

  lemma SnocEqual(a: seq<string>, x: string, b: seq<string>, y: string)
    requires |a| == |b|
    ensures a + [x] == b + [y] <==> a == b && x == y
  {
    if a + [x] == b + [y] {
      assert (a + [x])[..|a|] == a && (b + [y])[..|a|] == b;
      assert (a + [x])[|a|] == x && (b + [y])[|a|] == y;
    }
  }

  lemma ReadSnoc(ps: seq<Piece>, p: Piece)
    ensures ReadLines(ps + [p]) == if p.Line? then ReadLines(ps) + [ReadTail(ps) + p.text] else ReadLines(ps)
    ensures LineTexts(ps + [p]) == if p.Line? then LineTexts(ps) + [p.text] else LineTexts(ps)
    ensures ReadTail(ps + [p]) == if p.Line? then "" else ReadTail(ps) + p.text
    ensures ReadTail(ps) + p.text == p.text <==> ReadTail(ps) == ""
    ensures |ReadLines(ps)| == |LineTexts(ps)|
  {
    assert (ps + [p])[..|ps|] == ps;
    SameCount(ps);
    assert "" + p.text == p.text;
  }

  lemma {:induction false} SameCount(ps: seq<Piece>)
    ensures |ReadLines(ps)| == |LineTexts(ps)|
  {
    if ps != [] { SameCount(ps[..|ps| - 1]); }
  }

  lemma UnjudgedLastSnoc(ps: seq<Piece>, p: Piece)
    ensures UnjudgedLast(ps + [p]) <==> UnjudgedLast(ps) && (p.Line? ==> !HasUnjudged(ps))
    ensures HasUnjudged(ps + [p]) <==> HasUnjudged(ps) || p.Unjudged?
  {
    var all := ps + [p];
    assert forall q :: q in all <==> q in ps || q == p;
    if UnjudgedLast(all) {
      forall i, j | 0 <= i < j < |ps| && ps[i].Unjudged? ensures !ps[j].Line? {
        assert all[i] == ps[i] && all[j] == ps[j];
      }
      if HasUnjudged(ps) {
        var q :| q in ps && q.Unjudged?;
        var i :| 0 <= i < |ps| && ps[i] == q;
        assert all[i] == q && all[|ps|] == p;
      }
    }
  }

  lemma ChunkPiecesPlaced(buf: string, chunk: string)
    requires '\n' !in buf && |buf| <= MAX_BUFFER_SIZE
    ensures NewlineFree(ChunkPieces(buf, chunk))
    ensures forall p <- ChunkPieces(buf, chunk) :: !p.Rest? && (p.Unjudged? ==> p.text != "")
  {
    var ps := ChunkPieces(buf, chunk);
    if '\n' in chunk {
      var lines := Lines(buf + chunk);
      assert forall l <- lines :: '\n' !in l;
      assert forall p <- AsLines(lines) :: p.Line? && p.text in lines;
    }
  }

  lemma {:induction false} PiecesPlaced(chunks: seq<string>)
    ensures NewlineFree(Pieces(chunks))
    ensures forall p <- Pieces(chunks) :: !p.Rest? && (p.Unjudged? ==> p.text != "")
  {
    hide ChunkPieces;
    if chunks != [] {
      PiecesPlaced(chunks[..|chunks| - 1]);
      ChunkPiecesPlaced(Buf(chunks[..|chunks| - 1]), chunks[|chunks| - 1]);
    }
  }

  // ---- The stream transform itself

  function IndexOfNewline(s: string): (r: Option<nat>)
    ensures r.None? ==> '\n' !in s
    ensures r.Some? ==> r.value < |s| && s[r.value] == '\n' && '\n' !in s[..r.value]
  {
    if s == "" then None
    else if s[0] == '\n' then Some(0)
    else match IndexOfNewline(s[1..])
      case None => None
      case Some(i) => assert s[..i + 1] == [s[0]] + s[1..][..i]; Some(i + 1)
  }

  lemma JoinNone()
    ensures Join([]) == ""
  {
  }

  lemma JoinSnoc(lines: seq<string>, l: string)
    ensures Join(lines + [l]) == Join(lines) + l + "\n"
  {
    assert (lines + [l])[..|lines|] == lines;
  }

  method SplitLines(all: string) returns (lines: seq<string>, rest: string)
    ensures lines == Lines(all) && rest == Tail(all)
  {
    hide Join, Lines, Tail, IndexOfNewline;
    lines, rest := [], all;
    JoinNone();
    var i := IndexOfNewline(rest);
    while i.Some?
      invariant i == IndexOfNewline(rest)
      invariant all == Join(lines) + rest && forall l <- lines :: '\n' !in l
      decreases |rest|
    {
      var line := rest[..i.value];
      var next := rest[i.value + 1..];
      assert rest == line + "\n" + next;
      JoinSnoc(lines, line);
      assert Join(lines) + (line + "\n" + next) == (Join(lines) + line + "\n") + next;
      lines, rest := lines + [line], next;
      i := IndexOfNewline(rest);
    }
    SplitIsUnique(all, lines, rest);
  }

  lemma NoChunks()
    ensures Flat([]) == ""
  {
  }

  class NdjsonInterceptor<W> {
    const holdMode: bool
    const handler: Handler<W>
    var chunks: seq<string>
    var bufferSize: nat
    /** Everything pushed downstream, the callback's calls, what it was shown, and what it wrote. */
    var out: string
    var calls: nat
    var seen: seq<string>
    var written: seq<W>

    ghost predicate Valid()
      reads this
    {
      '\n' !in Flat(chunks) && bufferSize == |Flat(chunks)| <= MAX_BUFFER_SIZE
    }

    ghost function Now(): State<W>
      reads this
    {
      State(Flat(chunks), out, calls, seen, written)
    }

    constructor (holdMode: bool, handler: Handler<W>)
      ensures Valid() && Now() == Fresh() && this.holdMode == holdMode && this.handler == handler
    {
      this.holdMode, this.handler := holdMode, handler;
      chunks, bufferSize, out, calls, seen, written := [], 0, "", 0, [], [];
    }

    method Transform(chunk: string)
      requires Valid()
      modifies this
      ensures Valid() && Now() == Feed(holdMode, handler, old(Now()), chunk)
    {
      if holdMode {
        TransformHoldMode(chunk);
      } else {
        TransformPassthrough(chunk);
      }
    }

    method TransformPassthrough(chunk: string)
      requires Valid()
      modifies this
      ensures Valid() && Now() == FeedPass(handler, old(Now()), chunk)
    {
      hide Lines, Tail, Calls, Flat, Shown;
      NoChunks();
      NoPieces(handler, calls);
      ghost var buf := Flat(chunks);
      out := out + chunk;
      if bufferSize + |chunk| > MAX_BUFFER_SIZE && '\n' !in chunk {
        NothingShown(handler, buf, chunk);
        chunks, bufferSize := [], 0;
        return;
      }
      FlatSnoc(chunks, chunk);
      chunks, bufferSize := chunks + [chunk], bufferSize + |chunk|;
      if '\n' !in chunk { return; }
      var all := JoinChunks(chunks);
      var lines, rest := SplitLines(all);
      chunks, bufferSize := [], 0;
      ShowLines(lines);
      NothingShown(handler, buf, chunk);
      KeepRemainder(rest);
    }

    method ShowLines(lines: seq<string>)
      modifies `seen
      ensures seen == old(seen) + Shown(handler, AsLines(lines))
    {
      hide Out, Calls, Written, Shown;
      NoPieces(handler, 0);
      for i := 0 to |lines|
        invariant seen == old(seen) + Shown(handler, AsLines(lines[..i]))
      {
        OneMoreLine(handler, lines, i, 0);
        if |lines[i]| <= MAX_BUFFER_SIZE && handler.parses(lines[i]) {
          seen := seen + [lines[i]];
        }
      }
      assert lines[..|lines|] == lines;
    }

    method TransformHoldMode(chunk: string)
      requires Valid()
      modifies this
      ensures Valid() && Now() == FeedHold(handler, old(Now()), chunk)
    {
      hide Lines, Tail, Out, Shown, Calls, Written, Flat;
      NoChunks();
      NoPieces(handler, calls);
      LostChangesNothing(handler, Flat(chunks), chunk, calls);
      if bufferSize + |chunk| > MAX_BUFFER_SIZE && '\n' !in chunk {
        chunks, bufferSize := [], 0;
        out := out + chunk;
        return;
      }
      FlatSnoc(chunks, chunk);
      chunks, bufferSize := chunks + [chunk], bufferSize + |chunk|;
      if '\n' !in chunk { return; }
      var all := JoinChunks(chunks);
      var lines, rest := SplitLines(all);
      chunks, bufferSize := [], 0;
      KeepRemainder(rest);
      ProcessLinesHold(lines);
    }

    method ProcessLinesHold(lines: seq<string>)
      modifies `out, `calls, `written
      ensures out == old(out) + Out(handler, AsLines(lines), old(calls))
      ensures calls == old(calls) + Calls(handler, AsLines(lines))
      ensures written == old(written) + Written(handler, AsLines(lines), old(calls))
    {
      hide Out, Calls, Written, AsLines;
      NoLines(handler, calls);
      for i := 0 to |lines|
        invariant out == old(out) + Out(handler, AsLines(lines[..i]), old(calls))
        invariant calls == old(calls) + Calls(handler, AsLines(lines[..i]))
        invariant written == old(written) + Written(handler, AsLines(lines[..i]), old(calls))
      {
        var line := lines[i];
        OneMoreLine(handler, lines, i, old(calls));
        var text := "";
        if |line| > MAX_BUFFER_SIZE || !handler.parses(line) {
          text := line + "\n";
        } else {
          match handler.decide(calls, line) {
            case Allow => text := line + "\n";
            case Throw => text := line + "\n";
            case Deny(e) =>
              if e.Some? && e.value != "" { text := WithNewline(e.value); }
          }
          written := written + handler.writes(calls, line);
          calls := calls + 1;
        }
        out := out + text;
      }
      assert lines[..|lines|] == lines;
    }

    /** Store the unfinished tail back unless it is already too long. */
    method KeepRemainder(rest: string)
      requires chunks == [] && bufferSize == 0 && '\n' !in rest
      modifies `chunks, `bufferSize
      ensures Valid() && Flat(chunks) == if |rest| > MAX_BUFFER_SIZE then "" else rest
    {
      if 0 < |rest| <= MAX_BUFFER_SIZE {
        FlatSnoc([], rest);
        assert chunks + [rest] == [rest];
        chunks, bufferSize := [rest], |rest|;
      }
    }

    /** The source also compares the remainder with the limit here; `Valid` shows that it never exceeds it. */
    method EndOfStream()
      requires Valid()
      modifies this
      ensures Valid() && Now() == Flush(holdMode, handler, old(Now()))
    {
      hide Out, Calls, Written, Shown, Flat;
      NoChunks();
      AtEnd(handler, Flat(chunks), calls);
      if chunks == [] { return; }
      var remaining := JoinChunks(chunks);
      chunks, bufferSize := [], 0;
      if |remaining| == 0 { return; }
      if holdMode {
        var text := "";
        if !handler.parses(remaining) {
          text := remaining;
        } else {
          match handler.decide(calls, remaining) {
            case Allow => text := remaining;
            case Throw => text := remaining;
            case Deny(e) =>
              if e.Some? && e.value != "" { text := e.value; }
          }
          written := written + handler.writes(calls, remaining);
          calls := calls + 1;
        }
        out := out + text;
      } else if handler.parses(remaining) {
        seen := seen + [remaining];
      }
    }
  }

  lemma NoLines<W>(h: Handler<W>, k: nat)
    ensures Out(h, AsLines([]), k) == "" && Calls(h, AsLines([])) == 0 && Written(h, AsLines([]), k) == []
  {
  }

  lemma OneMoreLine<W>(h: Handler<W>, lines: seq<string>, i: nat, k: nat)
    requires i < |lines|
    ensures var before, after, p := AsLines(lines[..i]), AsLines(lines[..i + 1]), Line(lines[i]);
            && Out(h, after, k) == Out(h, before, k) + PieceOut(h, p, k + Calls(h, before))
            && Calls(h, after) == Calls(h, before) + (if Asked(h, p) then 1 else 0)
            && Written(h, after, k) == Written(h, before, k) + (if Asked(h, p) then h.writes(k + Calls(h, before), lines[i]) else [])
            && Shown(h, after) == Shown(h, before) + (if Asked(h, p) then [lines[i]] else [])
  {
    hide Out, Calls, Written, Shown, Asked, PieceOut;
    OutSnoc(h, AsLines(lines[..i]), Line(lines[i]), k);
    assert AsLines(lines[..i + 1]) == AsLines(lines[..i]) + [Line(lines[i])];
  }

  lemma AtEnd<W>(h: Handler<W>, tail: string, k: nat)
    ensures var ps, p := RestOf(tail), Rest(tail);
            && Out(h, ps, k) == (if tail == "" then "" else PieceOut(h, p, k))
            && Calls(h, ps) == (if tail != "" && Asked(h, p) then 1 else 0)
            && Written(h, ps, k) == (if tail != "" && Asked(h, p) then h.writes(k, tail) else [])
            && Shown(h, ps) == (if tail != "" && Asked(h, p) then [tail] else [])
  {
    hide Out, Calls, Written, Shown, Asked, PieceOut;
    NoPieces(h, k);
    OutSnoc(h, [], Rest(tail), k);
    assert [] + [Rest(tail)] == [Rest(tail)];
  }

  /** Characters that are dropped, or forwarded without asking, cost no call and write nothing. */
  lemma LostChangesNothing<W>(h: Handler<W>, buf: string, chunk: string, k: nat)
    ensures var ps := ChunkPieces(buf, chunk);
            && (Overflows(buf, chunk) ==> Out(h, ps, k) == chunk && Calls(h, ps) == 0 && Written(h, ps, k) == [])
            && ('\n' in chunk ==>
                  var lines := AsLines(Lines(buf + chunk));
                  Out(h, ps, k) == Out(h, lines, k) && Calls(h, ps) == Calls(h, lines) && Written(h, ps, k) == Written(h, lines, k))
  {
    hide Lines, Tail, Out, Calls, Written, Shown;
    NoPieces(h, k);
    OutSnoc(h, [], Lost(buf), k);
    OutSnoc(h, [], Unjudged(chunk), k);
    OutSnoc(h, [Lost(buf)], Unjudged(chunk), k);
    assert [] + [Lost(buf)] == [Lost(buf)] && [] + [Unjudged(chunk)] == [Unjudged(chunk)];
    var lines := AsLines(Lines(buf + chunk));
    OutSnoc(h, lines, Lost(Tail(buf + chunk)), k);
    assert lines + [] == lines;
  }

  lemma NothingShown<W>(h: Handler<W>, buf: string, chunk: string)
    ensures var ps := ChunkPieces(buf, chunk);
            && (Overflows(buf, chunk) ==> Shown(h, ps) == [])
            && ('\n' in chunk ==> Shown(h, ps) == Shown(h, AsLines(Lines(buf + chunk))))
  {
    hide Lines, Tail, Out, Calls, Written, Shown;
    NoPieces(h, 0);
    OutSnoc(h, [], Lost(buf), 0);
    OutSnoc(h, [], Unjudged(chunk), 0);
    OutSnoc(h, [Lost(buf)], Unjudged(chunk), 0);
    assert [] + [Lost(buf)] == [Lost(buf)] && [] + [Unjudged(chunk)] == [Unjudged(chunk)];
    var lines := AsLines(Lines(buf + chunk));
    OutSnoc(h, lines, Lost(Tail(buf + chunk)), 0);
    assert lines + [] == lines;
  }

  method JoinChunks(chunks: seq<string>) returns (all: string)
    ensures all == Flat(chunks)
  {
    all := "";
    for i := 0 to |chunks|
      invariant all == Flat(chunks[..i])
    {
      assert chunks[..i + 1][..i] == chunks[..i];
      all := all + chunks[i];
    }
    assert chunks[..|chunks|] == chunks;
  }
}
