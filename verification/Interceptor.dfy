/**
 Enforce mode: the hold-mode splitter composed with the handler that judges client messages.
 The handler writes a JSON-RPC error to the client's stdout for every message it refuses and lets
 the splitter drop the message; the splitter's output goes to the server.
 */
module Interceptor {
  import opened Prelude
  import opened Ndjson
  import Approvals
  import Glob
  import Permissions
  import Policy

  datatype RpcId = Text(s: string) | Number(n: int)

  datatype Message =
    | Request(id: RpcId, method_: string, tool: Option<string>)
    | Notification(method_: string)
    | Response(id: RpcId)

  datatype ErrorResponse = ErrorResponse(id: RpcId, code: int)

  const PERMISSION_DENIED := -32001

  /** What the enforcer is told beside the tool: the token's claims if there is a valid one, the arguments, the time; and
      the agent that approvals are requested for without a token. */
  datatype Context = Context(claims: Option<Policy.Claims>, arguments: Option<string>, minutes: nat, day: nat, agentId: nat)

  /** The message parser, the policy in force if any, and what the k-th message finds around it: its context, and the
      registry's replies to the approval request it would cause. The policy file may be reloaded between messages. */
  datatype Gate = Gate(
    parse: string -> Option<Message>,
    policy: nat -> Option<Policy.Config>,
    context: (nat, Message) -> Context,
    polls: (nat, Message) -> Option<seq<Approvals.PollReply>>)

  /** Only a `tools/call` request with a non-empty tool name is ever judged. */
  predicate Judged(m: Message) {
    m.Request? && m.method_ == "tools/call" && m.tool.Some? && m.tool.value != ""
  }

  function CallOf(g: Gate, k: nat, m: Message): Policy.Call
    requires Judged(m)
  {
    var c := g.context(k, m);
    Policy.Call(m.tool.value, c.claims, c.arguments, c.minutes, c.day)
  }

  /** The agent an approval of the message is requested for: the token's subject if there is a token. */
  function RequestedFor(g: Gate, k: nat, m: Message): nat {
    var c := g.context(k, m);
    if c.claims.Some? then c.claims.value.sub else c.agentId
  }

  function Judgement(g: Gate, k: nat, m: Message): Policy.Verdict
    requires Judged(m)
  {
    Policy.Judge(Policy.Enforce, g.policy(k), m.method_, CallOf(g, k, m))
  }

  predicate Refuses(g: Gate, k: nat, m: Message) {
    && Judged(m)
    && (Judgement(g, k, m) == Policy.Deny
        || (Judgement(g, k, m) == Policy.RequireApproval && Approvals.PollOutcome(g.polls(k, m)) != Approvals.OutcomeApproved))
  }

  /** The handler's answer; an exception in the enforcer rejects it. */
  function DecisionFor(g: Gate, k: nat, m: Message): Decision {
    if Judged(m) && Judgement(g, k, m) == Policy.NoVerdict then Throw
    else if Refuses(g, k, m) then Deny(None)
    else Decision.Allow
  }

  function ErrorsFor(g: Gate, k: nat, m: Message): seq<ErrorResponse> {
    if Refuses(g, k, m) then [ErrorResponse(m.id, PERMISSION_DENIED)] else []
  }

  /** The callback the splitter is given. */
  function HandlerOf(g: Gate): Handler<ErrorResponse> {
    Handler((line: string) => g.parse(line).Some?,
            (k: nat, line: string) => if g.parse(line).Some? then DecisionFor(g, k, g.parse(line).value) else Decision.Allow,
            (k: nat, line: string) => if g.parse(line).Some? then ErrorsFor(g, k, g.parse(line).value) else [])
  }

  // ---- What the handler does, on the message

  /** What a message is answered. Only a request to call a named tool is ever stopped, whatever its id. With a token that
      does not cover the tool it is refused. With one that does, or with none, it is forwarded if evaluation throws, refused
      if the deciding rule denies, and if that rule holds it, refused unless `approved` is the first final answer; without
      such a rule it is allowed with a token and refused without. A refusal is one error with the request's id. */
  lemma HandlerExactly(g: Gate, k: nat, m: Message)
    ensures !(m.Request? && m.method_ == "tools/call" && m.tool.Some? && m.tool.value != "") ==>
              DecisionFor(g, k, m) == Decision.Allow && ErrorsFor(g, k, m) == []
    ensures m.Request? && m.method_ == "tools/call" && m.tool.Some? && m.tool.value != "" ==>
              var x, polls := g.context(k, m), g.polls(k, m);
              var covered := x.claims.Some? && ("*" in x.claims.value.scope || m.tool.value in x.claims.value.scope);
              var approved := polls.Some? && exists i :: Approvals.FirstAnswer(polls.value, i, Approvals.Approved);
              var e := if g.policy(k).Some? then Policy.Evaluate(g.policy(k).value,
                            Policy.Call(m.tool.value, x.claims, x.arguments, x.minutes, x.day))
                       else Policy.Evaluation(Policy.AllowRule, None);
              var stopped := DecisionFor(g, k, m) == Deny(None) && ErrorsFor(g, k, m) == [ErrorResponse(m.id, -32001)];
              var passed := DecisionFor(g, k, m) == Decision.Allow && ErrorsFor(g, k, m) == [];
              && (x.claims.Some? && !covered ==> stopped)
              && (x.claims.None? || covered ==>
                    && (e.NoEvaluation? ==> DecisionFor(g, k, m) == Throw && ErrorsFor(g, k, m) == [])
                    && (e.Evaluation? && e.action == Policy.DenyRule ==> stopped)
                    && (e.Evaluation? && e.action == Policy.ApprovalRule ==> if approved then passed else stopped)
                    && (e.Evaluation? && e.action in {Policy.AllowRule, Policy.LogRule} ==> if covered then passed else stopped))
  {
    hide Policy.Evaluate, Approvals.FirstAnswer, Approvals.FirstFinal;
    if g.polls(k, m).Some? { Approvals.FirstFinalExactly(g.polls(k, m).value); }
  }

  // ---- Every piece of the client's stream has one fate

  datatype Fate = Forwarded(text: string) | RefusedWith(error: ErrorResponse) | Dropped

  function FateOf(g: Gate, p: Piece, k: nat): Fate {
    if p.Lost? then Dropped
    else if Asked(HandlerOf(g), p) && Refuses(g, k, g.parse(p.text).value)
    then RefusedWith(ErrorResponse(g.parse(p.text).value.id, PERMISSION_DENIED))
    else Forwarded(Raw(p))
  }

  /** The fates of the pieces, the first of which is the subject of call `k` if it is asked about. */
  function Fates(g: Gate, ps: seq<Piece>, k: nat): (fs: seq<Fate>)
    ensures |fs| == |ps|
  {
    if ps == [] then []
    else Fates(g, ps[..|ps| - 1], k) + [FateOf(g, ps[|ps| - 1], k + Calls(HandlerOf(g), ps[..|ps| - 1]))]
  }

  function StreamFates(g: Gate, chunks: seq<string>): seq<Fate> {
    Fates(g, AllPieces(chunks), 0)
  }

  /** What reaches the server. */
  function ToServer(fs: seq<Fate>): string {
    if fs == [] then ""
    else ToServer(fs[..|fs| - 1]) + if fs[|fs| - 1].Forwarded? then fs[|fs| - 1].text else ""
  }

  /** What the client reads as errors. */
  function ToClient(fs: seq<Fate>): seq<ErrorResponse> {
    if fs == [] then []
    else ToClient(fs[..|fs| - 1]) + if fs[|fs| - 1].RefusedWith? then [fs[|fs| - 1].error] else []
  }

  lemma OutcomeIsFate(g: Gate, p: Piece, k: nat)
    ensures var f, h := FateOf(g, p, k), HandlerOf(g);
            && PieceOut(h, p, k) == (if f.Forwarded? then f.text else "")
            && (if Asked(h, p) then h.writes(k, p.text) else []) == (if f.RefusedWith? then [f.error] else [])
  {
    hide Judgement, Judged;
  }

  lemma {:induction false} PiecesMeetFates(g: Gate, ps: seq<Piece>, k: nat)
    ensures Out(HandlerOf(g), ps, k) == ToServer(Fates(g, ps, k))
    ensures Written(HandlerOf(g), ps, k) == ToClient(Fates(g, ps, k))
  {
    hide HandlerOf, PieceOut, FateOf, Calls, Asked;
    if ps != [] {
      var init := ps[..|ps| - 1];
      PiecesMeetFates(g, init, k);
      OutcomeIsFate(g, ps[|ps| - 1], k + Calls(HandlerOf(g), init));
      assert Fates(g, ps, k)[..|ps| - 1] == Fates(g, init, k);
    }
  }

  /** The piece is forwarded unchanged, or is a named tool call answered by one error with its id, or was lost. */
  predicate OneFate(g: Gate, p: Piece, f: Fate) {
    match f
    case Forwarded(text) => !p.Lost? && text == Raw(p)
    case RefusedWith(e) =>
      && (p.Rest? || (p.Line? && |p.text| <= MAX_BUFFER_SIZE))
      && g.parse(p.text).Some?
      && (var m := g.parse(p.text).value;
          && m.Request? && m.method_ == "tools/call" && m.tool.Some? && m.tool.value != ""
          && e == ErrorResponse(m.id, -32001))
    case Dropped => p.Lost?
  }

  lemma OneFateEach(g: Gate, p: Piece, k: nat)
    ensures OneFate(g, p, FateOf(g, p, k))
  {
    hide Judgement;
  }

  lemma {:induction false} FateAt(g: Gate, ps: seq<Piece>, k: nat, i: nat)
    requires i < |ps|
    ensures Fates(g, ps, k)[i] == FateOf(g, ps[i], k + Calls(HandlerOf(g), ps[..i]))
  {
    hide HandlerOf, FateOf, Calls;
    if i < |ps| - 1 {
      FateAt(g, ps[..|ps| - 1], k, i);
      assert ps[..|ps| - 1][..i] == ps[..i];
    }
  }

  /** Enforce mode is exactly-once, for every stream and under every chunking: the pieces are the whole stream, each
      has one fate, the server reads the forwarded ones in order and nothing else, and the client reads one error for
      each refused one, in order and nothing else. The pieces are the stream's own lines exactly when the chunks leave
      nothing unfinished that is too long for the buffer. */
  lemma EnforceIsExactlyOnce(g: Gate, chunks: seq<string>)
    ensures var h, ps, fs := HandlerOf(g), AllPieces(chunks), StreamFates(g, chunks);
            var end := Flush(true, h, FeedAll(true, h, chunks));
            && RawAll(ps) == Flat(chunks) && (ps == BatchPieces(Flat(chunks)) <==> TailsFit(chunks))
            && |fs| == |ps| && (forall i :: 0 <= i < |fs| ==> OneFate(g, ps[i], fs[i]))
            && end.out == ToServer(fs) && end.written == ToClient(fs)
  {
    hide AllPieces, Flat, FeedAll, Flush, Fates, TailsFit, BatchPieces, RawAll, Out, Written, ToServer, ToClient;
    hide HandlerOf, FateOf, OneFate, Calls;
    var h, ps := HandlerOf(g), AllPieces(chunks);
    PiecesConserve(chunks);
    PiecesAreLinesExactly(chunks);
    HoldJudgesPieces(h, chunks);
    PiecesMeetFates(g, ps, 0);
    forall i | 0 <= i < |ps| ensures OneFate(g, ps[i], Fates(g, ps, 0)[i]) {
      FateAt(g, ps, 0, i);
      OneFateEach(g, ps[i], Calls(h, ps[..i]));
    }
  }

  // ---- What the server reads

  /** The pieces that reach the server. */
  function Kept(g: Gate, ps: seq<Piece>, k: nat): seq<Piece> {
    if ps == [] then []
    else
      var init, last := ps[..|ps| - 1], ps[|ps| - 1];
      Kept(g, init, k) + if FateOf(g, last, k + Calls(HandlerOf(g), init)).Forwarded? then [last] else []
  }

  lemma ToServerSnoc(fs: seq<Fate>, f: Fate)
    ensures ToServer(fs + [f]) == if f.Forwarded? then ToServer(fs) + f.text else ToServer(fs)
  {
    assert (fs + [f])[..|fs|] == fs;
  }

  lemma {:induction false} KeptReachServer(g: Gate, ps: seq<Piece>, k: nat)
    ensures ToServer(Fates(g, ps, k)) == RawAll(Kept(g, ps, k))
    ensures forall p <- Kept(g, ps, k) :: p in ps && !p.Lost?
  {
    hide HandlerOf, Calls, FateOf, RawAll, ToServer, Kept, Fates;
    if ps == [] {
      RawOne(Lost(""));
      NoFates(g, k);
    } else {
      var init, last := ps[..|ps| - 1], ps[|ps| - 1];
      var n := k + Calls(HandlerOf(g), init);
      KeptReachServer(g, init, k);
      ForwardedIsRaw(g, last, n);
      RawSnoc(Kept(g, init, k), last);
      ToServerSnoc(Fates(g, init, k), FateOf(g, last, n));
      KeptStep(g, ps, k);
    }
  }

  lemma NoFates(g: Gate, k: nat)
    ensures ToServer([]) == "" && Fates(g, [], k) == [] && Kept(g, [], k) == []
  {
  }

  lemma ForwardedIsRaw(g: Gate, p: Piece, k: nat)
    ensures FateOf(g, p, k).Forwarded? ==> FateOf(g, p, k).text == Raw(p) && !p.Lost?
  {
    hide Asked, Refuses;
  }

  /** Of a stream's pieces only the last can be the unfinished end. */
  lemma KeptPlaced(g: Gate, chunks: seq<string>)
    ensures NewlineFree(Kept(g, AllPieces(chunks), 0)) && WellPlaced(Kept(g, AllPieces(chunks), 0))
  {
    hide HandlerOf, Calls, FateOf, Kept, Pieces, Buf;
    var ps := Pieces(chunks);
    PiecesPlaced(chunks);
    KeptReachServer(g, ps, 0);
    KeptEnd(g, ps, Buf(chunks));
    hide RestOf;
    PlacedAlone(Kept(g, ps, 0), ps);
    PlacedSnoc(Kept(g, ps, 0), Rest(Buf(chunks)));
  }

  lemma PlacedAlone(ps: seq<Piece>, from: seq<Piece>)
    requires NewlineFree(from) && (forall p <- from :: !p.Rest? && (p.Unjudged? ==> p.text != ""))
    requires forall p <- ps :: p in from && !p.Lost?
    ensures NewlineFree(ps) && WellPlaced(ps) && forall p <- ps :: !p.Rest?
  {
    forall i | 0 <= i < |ps| ensures !ps[i].Rest? { assert ps[i] in ps; }
  }

  lemma KeptStep(g: Gate, ps: seq<Piece>, k: nat)
    requires ps != []
    ensures var init, last := ps[..|ps| - 1], ps[|ps| - 1];
            Fates(g, ps, k) == Fates(g, init, k) + [FateOf(g, last, k + Calls(HandlerOf(g), init))]
    ensures var init, last := ps[..|ps| - 1], ps[|ps| - 1];
            Kept(g, ps, k) == if FateOf(g, last, k + Calls(HandlerOf(g), init)).Forwarded? then Kept(g, init, k) + [last]
                              else Kept(g, init, k)
  {
    hide FateOf, Calls, HandlerOf;
  }

  lemma PlacedSnoc(ps: seq<Piece>, p: Piece)
    requires NewlineFree(ps) && WellPlaced(ps) && (forall q <- ps :: !q.Rest?)
    requires '\n' !in p.text && (p.Unjudged? ==> p.text != "")
    ensures !p.Lost? ==> NewlineFree(ps + [p]) && WellPlaced(ps + [p])
  {
    forall i | 0 <= i < |ps| ensures !(ps + [p])[i].Rest? { assert ps[i] in ps; }
  }

  /** What the server reads of any client stream in any chunks: the forwarded lines, each with the chunks forwarded on
      overflow since the line before it in front. These are the forwarded lines themselves exactly when no such chunk
      comes before one of them. */
  lemma ServerReadsExactly(g: Gate, chunks: seq<string>)
    ensures var out, kept := Flush(true, HandlerOf(g), FeedAll(true, HandlerOf(g), chunks)).out, Kept(g, AllPieces(chunks), 0);
            && Lines(out) == ReadLines(kept) && Tail(out) == ReadTail(kept)
            && (Lines(out) == LineTexts(kept) <==> UnjudgedLast(kept))
  {
    hide HandlerOf, Flush, FeedAll, Kept, Lines, Tail, ReadLines, ReadTail, LineTexts, UnjudgedLast, ToServer, Fates, Pieces;
    hide OneFate, TailsFit, BatchPieces, RawAll, WellPlaced;
    var ps := AllPieces(chunks);
    EnforceIsExactlyOnce(g, chunks);
    KeptReachServer(g, ps, 0);
    KeptPlaced(g, chunks);
    RawIsRead(Kept(g, ps, 0));
    ReadsItsLinesExactly(Kept(g, ps, 0));
  }

  /** The stream's own lines that the gate forwards, in order; the first is the subject of call 0 if it is asked about. */
  function ForwardedLines(g: Gate, lines: seq<string>): seq<string> {
    LineTexts(Kept(g, AsLines(lines), 0))
  }

  /** Complete mediation: if what the chunks leave unfinished always fits into the buffer, the server reads exactly the
      client's own lines that are forwarded, in order, and the client's unfinished end if that is forwarded. */
  lemma CompleteMediation(g: Gate, chunks: seq<string>)
    requires TailsFit(chunks)
    ensures var s := Flat(chunks);
            var out := Flush(true, HandlerOf(g), FeedAll(true, HandlerOf(g), chunks)).out;
            && Lines(out) == ForwardedLines(g, Lines(s))
            && Tail(out) == if Tail(s) != "" && FateOf(g, Rest(Tail(s)), Calls(HandlerOf(g), AsLines(Lines(s)))).Forwarded?
                            then Tail(s) else ""
  {
    hide HandlerOf, Flush, FeedAll, Lines, Tail, ReadLines, ReadTail, LineTexts, ToServer, Fates, Pieces, FateOf, Calls, RawAll;
    hide WellPlaced, Flat, TailsFit, AllPieces, Kept, UnjudgedLast;
    var s := Flat(chunks);
    var lines := AsLines(Lines(s));
    PiecesAreLinesExactly(chunks);
    assert AllPieces(chunks) == lines + RestOf(Tail(s));
    ServerReadsExactly(g, chunks);
    KeptEnd(g, lines, Tail(s));
    KeptReachServer(g, lines, 0);
    assert forall p <- lines :: p.Line?;
    OnlyLines(Kept(g, lines, 0), Tail(s));
  }

  lemma KeptEnd(g: Gate, ps: seq<Piece>, tail: string)
    ensures Kept(g, ps + RestOf(tail), 0)
            == if tail != "" && FateOf(g, Rest(tail), Calls(HandlerOf(g), ps)).Forwarded? then Kept(g, ps, 0) + [Rest(tail)]
               else Kept(g, ps, 0)
  {
    hide HandlerOf, Calls, FateOf;
    if tail == "" {
      assert ps + [] == ps;
    } else {
      assert (ps + [Rest(tail)])[..|ps|] == ps;
    }
  }

  lemma OnlyLines(ps: seq<Piece>, tail: string)
    requires forall p <- ps :: p.Line?
    ensures UnjudgedLast(ps) && UnjudgedLast(ps + [Rest(tail)])
    ensures LineTexts(ps + [Rest(tail)]) == LineTexts(ps)
    ensures ReadTail(ps) == "" && ReadTail(ps + [Rest(tail)]) == tail
  {
    ReadSnoc(ps, Rest(tail));
    assert ps != [] ==> ps[|ps| - 1] in ps;
    forall i | 0 <= i < |ps| ensures ps[i].Line? { assert ps[i] in ps; }
    assert forall i :: 0 <= i < |ps| ==> (ps + [Rest(tail)])[i] == ps[i];
    assert "" + tail == tail;
  }

  /** Which pieces holding a tool call reach the server: a chunk forwarded because it would overflow the buffer; a line too
      long to be asked about; one on which evaluation throws; one whose token covers the tool and that no deciding rule
      denies or holds; and a held one for which the registry answered `approved` before any other final answer. */
  lemma ForwardedCallsAreAuthorised(g: Gate, p: Piece, k: nat)
    requires g.parse(p.text).Some?
    requires var m := g.parse(p.text).value; m.Request? && m.method_ == "tools/call" && m.tool.Some? && m.tool.value != ""
    ensures var m := g.parse(p.text).value;
            var x, polls := g.context(k, m), g.polls(k, m);
            var covered := x.claims.Some? && ("*" in x.claims.value.scope || m.tool.value in x.claims.value.scope);
            var e := if g.policy(k).Some? then Policy.Evaluate(g.policy(k).value,
                          Policy.Call(m.tool.value, x.claims, x.arguments, x.minutes, x.day))
                     else Policy.Evaluation(Policy.AllowRule, None);
            FateOf(g, p, k).Forwarded? <==>
              && !p.Lost?
              && (|| p.Unjudged?
                  || (p.Line? && |p.text| > MAX_BUFFER_SIZE)
                  || (e.NoEvaluation? && (covered || x.claims.None?))
                  || (e.Evaluation? && covered && e.action in {Policy.AllowRule, Policy.LogRule})
                  || (e.Evaluation? && e.action == Policy.ApprovalRule && (covered || x.claims.None?)
                      && polls.Some? && exists i :: Approvals.FirstAnswer(polls.value, i, Approvals.Approved)))
  {
    HandlerExactly(g, k, g.parse(p.text).value);
    hide Policy.Evaluate, Approvals.FirstFinal, Approvals.FirstAnswer, Judgement, Judged;
  }

  /** A held call is forwarded only if a human approved it: let the replies come from a run of the registry in which the
      sidecar's request was accepted. If the call is forwarded, the row of that request, for the caller and that tool, is
      approved, by an event of the run that was in time, with one audit row saying so and none saying the opposite; if it
      is refused, the registry gave no such answer. */
  lemma HeldCallsAreApproved(g: Gate, p: Piece, k: nat, polls: seq<Approvals.PollReply>, events: seq<Approvals.Event>, j: int,
                             id: nat, timeoutSeconds: int, requested: int, at: seq<nat>)
    requires (p.Rest? || (p.Line? && |p.text| <= MAX_BUFFER_SIZE)) && g.parse(p.text).Some?
    requires var m := g.parse(p.text).value; m.Request? && m.method_ == "tools/call" && m.tool.Some? && m.tool.value != ""
    requires var m := g.parse(p.text).value;
             var x := g.context(k, m);
             && (x.claims.Some? ==> "*" in x.claims.value.scope || m.tool.value in x.claims.value.scope)
             && g.policy(k).Some?
             && var e := Policy.Evaluate(g.policy(k).value, Policy.Call(m.tool.value, x.claims, x.arguments, x.minutes, x.day));
                e.Evaluation? && e.action == Policy.ApprovalRule
    requires var m := g.parse(p.text).value;
             && g.polls(k, m) == Some(polls)
             && 0 <= j < |events|
             && events[j] == Approvals.Create(id, RequestedFor(g, k, m), m.tool.value, timeoutSeconds, requested)
             && Approvals.Accepts(Approvals.Run(Approvals.EMPTY_QUEUE, events[..j]), id, RequestedFor(g, k, m), m.tool.value,
                                  timeoutSeconds)
    requires Approvals.PolledDuring(events, id, polls, at)
    ensures var s, m := Approvals.Run(Approvals.EMPTY_QUEUE, events), g.parse(p.text).value;
            && id in s.rows && s.rows[id].tool == m.tool.value
            && s.rows[id].agent == (match g.context(k, m).claims case Some(c) => c.sub case None => g.context(k, m).agentId)
            && (FateOf(g, p, k).Forwarded? <==> exists i :: Approvals.FirstAnswer(polls, i, Approvals.Approved))
            && (FateOf(g, p, k).Forwarded? ==>
                  && s.rows[id].status == Approvals.Approved
                  && Approvals.Count(s.audit, id, Approvals.Granted) == 1
                  && Approvals.Count(s.audit, id, Approvals.Rejected) == 0
                  && exists i :: Approvals.DecidedAt(events, i, id, s.rows[id]))
  {
    hide Judgement, Judged, Approvals.Run, Approvals.Count, Approvals.DecidedAt, Approvals.FirstAnswer, Approvals.FirstFinal;
    hide Approvals.PolledDuring, Policy.Evaluate;
    var m := g.parse(p.text).value;
    HandlerExactly(g, k, m);
    Approvals.FirstFinalExactly(polls);
    Approvals.RequestedRow(events, j, id, RequestedFor(g, k, m), m.tool.value, timeoutSeconds, requested);
    if Approvals.FirstFinal(polls) == Approvals.OutcomeApproved {
      Approvals.OutcomeIsTheRowsStatus(events, id, polls, at);
    }
  }

  // ---- Refused calls never reach the server

  /** `served` are the lines at the positions `at`, in order, which are those of the forwarded fates. */
  ghost predicate Served(served: seq<string>, lines: seq<string>, fs: seq<Fate>, at: seq<nat>)
    requires |lines| <= |fs|
  {
    && |at| == |served|
    && (forall j :: 0 <= j < |at| ==> at[j] < |lines| && served[j] == lines[at[j]])
    && (forall i, j :: 0 <= i < j < |at| ==> at[i] < at[j])
    && (forall i {:trigger fs[i]} :: 0 <= i < |lines| ==> (i in at <==> fs[i].Forwarded?))
  }

  lemma ServedSnoc(served: seq<string>, lines: seq<string>, fs: seq<Fate>, at: seq<nat>, line: string, f: Fate)
    requires |lines| == |fs| && Served(served, lines, fs, at)
    ensures f.Forwarded? ==> Served(served + [line], lines + [line], fs + [f], at + [|lines|])
    ensures !f.Forwarded? ==> Served(served, lines + [line], fs + [f], at)
  {
    var longer, more := at + [|lines|], lines + [line];
    forall k | k in at ensures k < |lines| { var j :| 0 <= j < |at| && at[j] == k; }
    assert forall k :: k in longer <==> k in at || k == |lines|;
    forall j | 0 <= j < |at| ensures at[j] < |lines| && served[j] == more[at[j]] { assert served[j] == lines[at[j]]; }
  }

  lemma {:induction false} KeptLinesServed(g: Gate, lines: seq<string>)
    ensures exists at :: Served(LineTexts(Kept(g, AsLines(lines), 0)), lines, Fates(g, AsLines(lines), 0), at)
  {
    hide FateOf, Calls, HandlerOf, Served, Fates, Kept, LineTexts;
    if lines == [] {
      NothingServed(g);
    } else {
      var init, last := lines[..|lines| - 1], lines[|lines| - 1];
      KeptLinesServed(g, init);
      var fs, kept := Fates(g, AsLines(init), 0), Kept(g, AsLines(init), 0);
      var at :| Served(LineTexts(kept), init, fs, at);
      var f := FateOf(g, Line(last), Calls(HandlerOf(g), AsLines(init)));
      ServedSnoc(LineTexts(kept), init, fs, at, last, f);
      assert lines == init + [last];
      LinesSnoc(g, init, last);
      LineTextSnoc(kept, last);
    }
  }

  lemma NothingServed(g: Gate)
    ensures Served(LineTexts(Kept(g, AsLines([]), 0)), [], Fates(g, AsLines([]), 0), [])
  {
  }

  lemma LineTextSnoc(ps: seq<Piece>, line: string)
    ensures LineTexts(ps + [Line(line)]) == LineTexts(ps) + [line]
  {
    assert (ps + [Line(line)])[..|ps|] == ps;
  }

  lemma LinesSnoc(g: Gate, lines: seq<string>, line: string)
    ensures var ps, f := AsLines(lines), FateOf(g, Line(line), Calls(HandlerOf(g), AsLines(lines)));
            && Fates(g, AsLines(lines + [line]), 0) == Fates(g, ps, 0) + [f]
            && Kept(g, AsLines(lines + [line]), 0) == if f.Forwarded? then Kept(g, ps, 0) + [Line(line)] else Kept(g, ps, 0)
  {
    hide FateOf, Calls, HandlerOf;
    var ps, longer := AsLines(lines), AsLines(lines + [line]);
    assert longer == ps + [Line(line)] && longer[..|ps|] == ps;
  }

  /** If what the chunks leave unfinished fits into the buffer, the server reads those of the client's lines whose fate it
      is to be forwarded, each once and in order, and no other. */
  lemma ServerReadsForwardedLines(g: Gate, chunks: seq<string>)
    requires TailsFit(chunks)
    ensures var lines, fs := Lines(Flat(chunks)), StreamFates(g, chunks);
            var out := Flush(true, HandlerOf(g), FeedAll(true, HandlerOf(g), chunks)).out;
            |lines| <= |fs| && exists at :: Served(Lines(out), lines, fs, at)
  {
    hide HandlerOf, Flush, FeedAll, Lines, Tail, LineTexts, Fates, Pieces, FateOf, Calls, Flat, TailsFit, AllPieces, Kept, Served;
    var s := Flat(chunks);
    var ps := AsLines(Lines(s));
    PiecesAreLinesExactly(chunks);
    CompleteMediation(g, chunks);
    KeptLinesServed(g, Lines(s));
    var served := LineTexts(Kept(g, ps, 0));
    var at :| Served(served, Lines(s), Fates(g, ps, 0), at);
    assert StreamFates(g, chunks) == Fates(g, ps + RestOf(Tail(s)), 0);
    FatesAreLocal(g, ps, RestOf(Tail(s)));
    ServedLonger(served, Lines(s), Fates(g, ps, 0), StreamFates(g, chunks), at);
  }

  lemma ServedLonger(served: seq<string>, lines: seq<string>, fs: seq<Fate>, more: seq<Fate>, at: seq<nat>)
    requires |lines| <= |fs| && fs <= more && Served(served, lines, fs, at)
    ensures Served(served, lines, more, at)
  {
    forall i | 0 <= i < |lines| ensures i in at <==> more[i].Forwarded? {
      assert more[i] == fs[i];
    }
  }

  /** What becomes of a piece does not depend on those after it. */
  lemma FatesAreLocal(g: Gate, ps: seq<Piece>, more: seq<Piece>)
    ensures Fates(g, ps, 0) <= Fates(g, ps + more, 0)
  {
    hide FateOf, Calls, HandlerOf, Fates;
    forall i | 0 <= i < |ps| ensures Fates(g, ps, 0)[i] == Fates(g, ps + more, 0)[i] {
      FateAt(g, ps, 0, i);
      FateAt(g, ps + more, 0, i);
      assert (ps + more)[..i] == ps[..i];
    }
  }

  /** A tool call that the token or the deciding rule refuses never reaches the server, if what the chunks leave unfinished
      fits into the buffer and the call does: line `i` is answered by one error with its id, and the lines that the server
      reads are those at other positions. */
  lemma RefusedCallsAreStopped(g: Gate, chunks: seq<string>, i: nat)
    requires TailsFit(chunks) && i < |Lines(Flat(chunks))|
    requires var line := Lines(Flat(chunks))[i]; |line| <= MAX_BUFFER_SIZE && g.parse(line).Some?
    requires var m := g.parse(Lines(Flat(chunks))[i]).value;
             m.Request? && m.method_ == "tools/call" && m.tool.Some? && m.tool.value != ""
    requires var m, k := g.parse(Lines(Flat(chunks))[i]).value, Calls(HandlerOf(g), AsLines(Lines(Flat(chunks))[..i]));
             var x, polls := g.context(k, m), g.polls(k, m);
             var covered := x.claims.Some? && ("*" in x.claims.value.scope || m.tool.value in x.claims.value.scope);
             var e := if g.policy(k).Some? then Policy.Evaluate(g.policy(k).value,
                           Policy.Call(m.tool.value, x.claims, x.arguments, x.minutes, x.day))
                      else Policy.Evaluation(Policy.AllowRule, None);
             || (x.claims.Some? && !covered)
             || (e.Evaluation? && e.action == Policy.DenyRule)
             || (e.Evaluation? && e.action == Policy.ApprovalRule
                 && !(polls.Some? && exists j :: Approvals.FirstAnswer(polls.value, j, Approvals.Approved)))
             || (e.Evaluation? && e.action in {Policy.AllowRule, Policy.LogRule} && !covered)
    ensures var lines, fs := Lines(Flat(chunks)), StreamFates(g, chunks);
            var end := Flush(true, HandlerOf(g), FeedAll(true, HandlerOf(g), chunks));
            && |lines| <= |fs| && fs[i] == RefusedWith(ErrorResponse(g.parse(lines[i]).value.id, -32001))
            && end.written == ToClient(fs)
            && exists at :: Served(Lines(end.out), lines, fs, at) && i !in at
  {
    hide Flush, FeedAll, Lines, Tail, Fates, Pieces, Calls, Flat, TailsFit, AllPieces, Served, Policy.Evaluate;
    hide Approvals.FirstAnswer, OneFate, ToClient, ToServer, Judgement, Judged, Approvals.PollOutcome, RawAll;
    var lines, fs := Lines(Flat(chunks)), StreamFates(g, chunks);
    PiecesAreLinesExactly(chunks);
    EnforceIsExactlyOnce(g, chunks);
    ServerReadsForwardedLines(g, chunks);
    var ps := AllPieces(chunks);
    FateAt(g, ps, 0, i);
    assert ps[..i] == AsLines(lines[..i]) && ps[i] == Line(lines[i]);
    HandlerExactly(g, Calls(HandlerOf(g), ps[..i]), g.parse(lines[i]).value);
    var end := Flush(true, HandlerOf(g), FeedAll(true, HandlerOf(g), chunks));
    var at :| Served(Lines(end.out), lines, fs, at);
    NotServed(Lines(end.out), lines, fs, at, i);
  }

  lemma NotServed(served: seq<string>, lines: seq<string>, fs: seq<Fate>, at: seq<nat>, i: nat)
    requires |lines| <= |fs| && Served(served, lines, fs, at) && i < |lines| && !fs[i].Forwarded?
    ensures i !in at
  {
  }

  // ---- Ways past the gate

  /** A policy whose one rule denies a misspelt tool pattern. */
  const TYPO_POLICY := Policy.Config(true, [
    Policy.Rule("block", Some(["?x"]), Policy.AnyAgent, None, None, None, None, Policy.DenyRule, None, None)])

  /** A pattern that is no regular expression fails open: under that policy every tool call that reaches it is forwarded
      without an error, even one without a token, which without a policy would be refused. */
  lemma TypoLetsEverythingThrough(g: Gate, p: Piece, k: nat)
    requires g.policy(k) == Some(TYPO_POLICY)
    requires (p.Rest? || (p.Line? && |p.text| <= MAX_BUFFER_SIZE)) && g.parse(p.text).Some?
    requires var m := g.parse(p.text).value; m.Request? && m.method_ == "tools/call" && m.tool.Some? && m.tool.value != ""
    requires g.context(k, g.parse(p.text).value).claims.None?
    ensures DecisionFor(g, k, g.parse(p.text).value) == Throw && FateOf(g, p, k) == Forwarded(Raw(p))
    ensures FateOf(g.(policy := _ => None), p, k).RefusedWith?
  {
    var c := CallOf(g, k, g.parse(p.text).value);
    var rule := TYPO_POLICY.rules[0];
    TypoThrows(c.tool);
    assert Policy.RuleTest(rule, c) == Policy.Throws;
    assert Policy.Decides(TYPO_POLICY.rules, c, 0);
    hide Policy.Evaluate, Policy.RuleTest, Policy.AnyGlob, Policy.Decides;
    Policy.EvaluationIsBestRule(TYPO_POLICY, c);
  }

  lemma TypoThrows(tool: string)
    ensures Policy.AnyGlob(["?x"], tool) == Policy.Throws
  {
    assert "?x"[0] == '?' && !Glob.MarksOk("?x");
    Glob.GlobThrowsExactly("?x", tool);
    assert Policy.SettlesAt(["?x"], tool, 0);
    Policy.PatternsThrowExactly(["?x"], tool);
  }

  /** A complete line over the limit is forwarded unjudged, whatever message it is: here the first line of a stream. */
  lemma OversizedCallIsForwarded(g: Gate, line: string)
    requires '\n' !in line && |line| > MAX_BUFFER_SIZE
    ensures StreamFates(g, [line + "\n"]) == [Forwarded(line + "\n")]
  {
    OneLinePieces(line);
    FateAt(g, [Line(line)], 0, 0);
  }

  /** The gate can be passed by: newline-free filler, then a call that overflows the buffer with it, then the newline.
      The splitter drops the filler, forwards the call as it comes and finds only a blank line to judge; the server reads
      the call as a line of its own and the client reads no error, although the same call sent as a line is refused. */
  lemma SplitCallPassesTheGate(g: Gate, filler: string, call: string)
    requires g.parse("").None?
    requires '\n' !in filler && filler != "" && |filler| <= MAX_BUFFER_SIZE < |filler| + |call|
    requires '\n' !in call && |call| <= MAX_BUFFER_SIZE && g.parse(call).Some? && Refuses(g, 0, g.parse(call).value)
    ensures var end := Flush(true, HandlerOf(g), FeedAll(true, HandlerOf(g), [filler, call, "\n"]));
            end.out == call + "\n" && Lines(end.out) == [call] && end.written == []
    ensures StreamFates(g, [call + "\n"]) == [RefusedWith(ErrorResponse(g.parse(call).value.id, PERMISSION_DENIED))]
  {
    hide Refuses, Lines, Tail, Out, Calls, Written, FeedAll, Flush, AllPieces;
    var h := HandlerOf(g);
    SplitCallPieces(filler, call);
    HoldJudgesPieces(h, [filler, call, "\n"]);
    NoPieces(h, 0);
    OutSnoc(h, [], Lost(filler), 0);
    OutSnoc(h, [Lost(filler)], Unjudged(call), 0);
    OutSnoc(h, [Lost(filler), Unjudged(call)], Line(""), 0);
    assert [] + [Lost(filler)] == [Lost(filler)];
    assert [Lost(filler)] + [Unjudged(call)] == [Lost(filler), Unjudged(call)];
    assert [Lost(filler), Unjudged(call)] + [Line("")] == [Lost(filler), Unjudged(call), Line("")];
    SplitOneLine(call);
    OneLinePieces(call);
    FateAt(g, [Line(call)], 0, 0);
  }

  lemma SplitCallPieces(filler: string, call: string)
    requires '\n' !in filler && filler != "" && |filler| <= MAX_BUFFER_SIZE < |filler| + |call| && '\n' !in call
    ensures AllPieces([filler, call, "\n"]) == [Lost(filler), Unjudged(call), Line("")]
  {
    var c := [filler, call, "\n"];
    OversizedLineLosesItsPrefix(filler, call);
    assert c[..2] == [filler, call] && [filler, call][..1] == [filler] && [filler][..0] == [];
    assert Buf([filler]) == filler && Pieces([filler]) == [];
    assert Buf([filler, call]) == NextBuf(filler, call);
    assert Buf([filler, call]) == "" && Pieces([filler, call]) == [Lost(filler), Unjudged(call)];
    SplitOneLine("");
    assert "" + "\n" == "\n";
    assert AsLines([""]) == [Line("")];
    hide Lines, Tail;
    assert ChunkPieces("", "\n") == [Line("")] && NextBuf("", "\n") == "";
  }

  // ---- How many

  /** Is piece `i` of the stream a tool call that the gate refuses? */
  predicate RefusedAt(g: Gate, ps: seq<Piece>, i: nat)
    requires i < |ps|
  {
    Asked(HandlerOf(g), ps[i]) && Refuses(g, Calls(HandlerOf(g), ps[..i]), g.parse(ps[i].text).value)
  }

  function RefusedCount(g: Gate, ps: seq<Piece>): nat {
    if ps == [] then 0 else RefusedCount(g, ps[..|ps| - 1]) + if RefusedAt(g, ps, |ps| - 1) then 1 else 0
  }

  function ForwardedCount(fs: seq<Fate>): nat {
    if fs == [] then 0 else ForwardedCount(fs[..|fs| - 1]) + if fs[|fs| - 1].Forwarded? then 1 else 0
  }

  function LostCount(ps: seq<Piece>): nat {
    if ps == [] then 0 else LostCount(ps[..|ps| - 1]) + if ps[|ps| - 1].Lost? then 1 else 0
  }

  lemma {:induction false} FateCounts(g: Gate, ps: seq<Piece>)
    ensures |ToClient(Fates(g, ps, 0))| == RefusedCount(g, ps)
    ensures ForwardedCount(Fates(g, ps, 0)) + RefusedCount(g, ps) + LostCount(ps) == |ps|
  {
    hide HandlerOf, Calls, Asked, Refuses;
    if ps != [] {
      var init := ps[..|ps| - 1];
      FateCounts(g, init);
      LostIsNotAsked(g, ps[|ps| - 1]);
      assert Fates(g, ps, 0)[..|ps| - 1] == Fates(g, init, 0);
    }
  }

  lemma LostIsNotAsked(g: Gate, p: Piece)
    ensures p.Lost? ==> !Asked(HandlerOf(g), p)
  {
  }

  /** Of a client's stream, the client reads as many errors as tool calls were refused, and everything else was
      forwarded or lost. */
  lemma FatesAddUp(g: Gate, chunks: seq<string>)
    ensures var h, ps := HandlerOf(g), AllPieces(chunks);
            && |Flush(true, h, FeedAll(true, h, chunks)).written| == RefusedCount(g, ps)
            && ForwardedCount(StreamFates(g, chunks)) + RefusedCount(g, ps) + LostCount(ps) == |ps|
  {
    hide AllPieces, FeedAll, Flush, Fates, ToClient, RefusedCount, HandlerOf, OneFate, ToServer;
    EnforceIsExactlyOnce(g, chunks);
    FateCounts(g, AllPieces(chunks));
  }

  // ---- The handler

  class McpInterceptor {
    const gate: Gate
    /** Errors written to the client. */
    var stdout: seq<ErrorResponse>

    constructor (gate: Gate)
      ensures this.gate == gate && stdout == []
    {
      this.gate, stdout := gate, [];
    }

    /** What the splitter's callback answers and writes: an exception in the enforcer is caught by nobody here. */
    method HandleClientMessageHold(k: nat, m: Message) returns (d: Decision)
      modifies this
      ensures d == DecisionFor(gate, k, m)
      ensures stdout == old(stdout) + ErrorsFor(gate, k, m)
      ensures stdout == if d == Deny(None) && m.Request? then old(stdout) + [ErrorResponse(m.id, -32001)] else old(stdout)
      ensures !(m.Request? && m.method_ == "tools/call" && m.tool.Some? && m.tool.value != "") ==> d == Decision.Allow
      ensures m.Request? && m.method_ == "tools/call" && m.tool.Some? && m.tool.value != "" ==>
                var claims := gate.context(k, m).claims;
                && (claims.Some? && "*" !in claims.value.scope && m.tool.value !in claims.value.scope ==> d == Deny(None))
                && (claims.None? && gate.policy(k).None? ==> d == Deny(None))
                && (claims.Some? && ("*" in claims.value.scope || m.tool.value in claims.value.scope) && gate.policy(k).None? ==>
                      d == Decision.Allow)
    {
      HandlerExactly(gate, k, m);
      if m.Request? {
        if m.method_ == "tools/call" {
          if m.tool.Some? && m.tool.value != "" {
            var judgement := Judgement(gate, k, m);
            if judgement == Policy.NoVerdict { return Throw; }
            if judgement == Policy.Deny {
              stdout := stdout + [ErrorResponse(m.id, PERMISSION_DENIED)];
              return Deny(None);
            }
            if judgement == Policy.RequireApproval {
              var outcome := Approvals.RequestAndPoll(gate.polls(k, m));
              if outcome == Approvals.OutcomeApproved { return Decision.Allow; }
              stdout := stdout + [ErrorResponse(m.id, PERMISSION_DENIED)];
              return Deny(None);
            }
          }
        }
      }
      return Decision.Allow;
    }

    /** A whole client stream, in whatever chunks it comes, through a hold-mode splitter with this handler as its
        callback: what the server and the client get. */
    method EnforceStream(chunks: seq<string>) returns (server: string)
      modifies this
      ensures server == ToServer(StreamFates(gate, chunks))
      ensures stdout == old(stdout) + ToClient(StreamFates(gate, chunks))
    {
      hide HandlerOf, Feed, StreamFates, ToClient, ToServer, Flat, AllPieces, OneFate, TailsFit, BatchPieces, Flush;
      var splitter := new NdjsonInterceptor(true, HandlerOf(gate));
      for i := 0 to |chunks|
        modifies splitter
        invariant splitter.Valid() && splitter.Now() == FeedAll(true, HandlerOf(gate), chunks[..i])
      {
        assert chunks[..i + 1][..i] == chunks[..i];
        splitter.Transform(chunks[i]);
      }
      assert chunks[..|chunks|] == chunks;
      splitter.EndOfStream();
      EnforceIsExactlyOnce(gate, chunks);
      server := splitter.out;
      stdout := stdout + splitter.written;
    }
  }
}
