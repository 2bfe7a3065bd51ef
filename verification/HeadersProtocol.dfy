/**
 The two passes of a headers sync on values: what the fields of each pass mean in terms of
 the headers received, how one header or one message changes them, and why a peer that
 serves the same chain twice is never refused.
 */
module HeadersProtocol {
  import opened HeadersModel

  datatype Phase = Presync | Redownload | Final

  /** The block the peer's chain builds on. */
  datatype ChainStart = ChainStart(header: Header, hash: Hash, height: nat, work: nat)

  datatype ProcessingResult = ProcessingResult(headers: seq<Header>, success: bool, requestMore: bool)

  /** The fields of the first pass. */
  datatype Pre = Pre(last: Header, height: nat, work: nat, commitments: seq<bool>)

  /** The fields of the second pass. */
  datatype Redo = Redo(buffer: seq<CompressedHeader>, firstPrev: Hash, lastHash: Hash, lastHeight: nat,
                       work: nat, all: bool, commitments: seq<bool>)

  /** The headers accepted in each pass, those released, and how many of the second pass were
      accepted before the work requirement was met. */
  datatype History = History(presynced: seq<Header>, accepted: seq<Header>, released: seq<Header>, checked: nat)

  /** A sync seen from outside: its phase and the headers of each pass it has accepted. */
  datatype Heard = Heard(phase: Phase, presynced: seq<Header>, accepted: seq<Header>)

  /** The headers of one message follow each other; the caller has checked this. */
  ghost predicate Continuous(env: Env, hs: seq<Header>) {
    forall i :: 0 < i < |hs| ==> hs[i].prev == env.hashOf(hs[i - 1])
  }

  /** The headers of several messages, in order. */
  function Flat(messages: seq<seq<Header>>): seq<Header> {
    if messages == [] then [] else Flat(messages[..|messages| - 1]) + messages[|messages| - 1]
  }

  ghost predicate Messages(env: Env, messages: seq<seq<Header>>) {
    messages != [] && forall i :: 0 <= i < |messages| ==> messages[i] != [] && Continuous(env, messages[i])
  }

  lemma FlatSnoc(messages: seq<seq<Header>>, i: nat)
    requires i < |messages|
    ensures Flat(messages[..i + 1]) == Flat(messages[..i]) + messages[i]
  {
    assert messages[..i + 1][..i] == messages[..i];
  }

  lemma NothingFlat()
    ensures Flat([]) == []
  {
  }

  lemma {:induction false} FlatPrefix(messages: seq<seq<Header>>, i: nat)
    requires i <= |messages|
    ensures Flat(messages[..i]) <= Flat(messages)
  {
    if i == |messages| {
      assert messages[..i] == messages;
    } else {
      var init := messages[..|messages| - 1];
      FlatPrefix(init, i);
      assert init[..i] == messages[..i];
    }
  }

  predicate MayPop(r: Redo) {
    |r.buffer| > REDOWNLOAD_BUFFER_SIZE || (|r.buffer| > 0 && r.all)
  }

  /** Everything a sync is given when it starts. */
  datatype Setting = Setting(env: Env, start: ChainStart, required: nat) {

    predicate Ok() {
      env.offset < HEADER_COMMITMENT_PERIOD && env.hashOf(start.header) == start.hash && start.work < WORK_LIMIT
    }

    predicate Reached(hs: seq<Header>) { env.Reached(hs, start.work, required) }

    function Bits(hs: seq<Header>): seq<bool> { env.CommitBits(hs, start.height) }

    /** A permitted chain from the start. */
    predicate Chain(hs: seq<Header>) {
      env.Linked(hs, start.hash) && env.DifficultyOk(hs, start.header.bits, start.height)
    }

    lemma Snoc(hs: seq<Header>, h: Header)
      ensures env.Linked(hs + [h], start.hash) <==>
              env.Linked(hs, start.hash) && h.prev == env.TipHash(hs, start.hash)
      ensures env.DifficultyOk(hs + [h], start.header.bits, start.height) <==>
              env.DifficultyOk(hs, start.header.bits, start.height) &&
              env.permitted(start.height + |hs| + 1, env.TipBits(hs, start.header.bits), h.bits)
      ensures env.WorkOf(hs + [h], start.work) == AddWork(env.WorkOf(hs, start.work), env.proof(h.bits))
      ensures Reached(hs + [h]) <==> Reached(hs) || env.WorkOf(hs + [h], start.work) >= required
      ensures Bits(hs + [h]) == Bits(hs) + if env.Commits(start.height + |hs| + 1) then [env.BitOf(h)] else []
    {
      env.Snoc(hs, h, start.hash, start.header.bits, start.work, required, start.height);
    }

    // ---------------------------------------------------------------- the first pass

    /** What is kept is what the headers received so far determine. */
    predicate PresyncFits(hs: seq<Header>, p: Pre) {
      && Chain(hs)
      && p.last == (if hs == [] then start.header else hs[|hs| - 1])
      && p.height == start.height + |hs|
      && p.work == env.WorkOf(hs, start.work)
      && p.commitments == Bits(hs)
    }

    /** Whether the next header of a message is taken, and what it leaves. */
    predicate Admits(p: Pre, h: Header, maxCommitments: nat) {
      && env.permitted(p.height + 1, p.last.bits, h.bits)
      && (env.Commits(p.height + 1) ==> |p.commitments| + 1 <= maxCommitments)
    }

    function Admitted(p: Pre, h: Header): Pre {
      Pre(h, p.height + 1, AddWork(p.work, env.proof(h.bits)),
          p.commitments + if env.Commits(p.height + 1) then [env.BitOf(h)] else [])
    }

    lemma PresyncSnoc(hs: seq<Header>, p: Pre, h: Header)
      requires Ok() && PresyncFits(hs, p) && h.prev == env.hashOf(p.last)
      ensures env.permitted(p.height + 1, p.last.bits, h.bits) ==> PresyncFits(hs + [h], Admitted(p, h))
      ensures Chain(hs + [h]) ==> env.permitted(p.height + 1, p.last.bits, h.bits)
    {
      Snoc(hs, h);
    }

    predicate AdmitsAll(p: Pre, hs: seq<Header>, maxCommitments: nat)
      decreases |hs|
    {
      hs != [] ==> Admits(p, hs[0], maxCommitments) && AdmitsAll(Admitted(p, hs[0]), hs[1..], maxCommitments)
    }

    function AdmittedAll(p: Pre, hs: seq<Header>): Pre
      decreases |hs|
    {
      if hs == [] then p else AdmittedAll(Admitted(p, hs[0]), hs[1..])
    }

    /** A message that continues the chain begins with a header naming the last one. */
    lemma Connects(hs: seq<Header>, p: Pre, message: seq<Header>)
      requires Ok() && PresyncFits(hs, p) && message != []
      ensures Chain(hs + message) ==> message[0].prev == env.hashOf(p.last)
    {
      var all := hs + message;
      if env.Linked(all, start.hash) {
        env.LinkedAt(all, start.hash, |hs|);
        assert all[|hs|] == message[0] && all[..|hs|] == hs;
      }
    }

    /** A connecting message that is taken extends the chain and its commitments. */
    lemma {:induction false} AdmittedFits(hs: seq<Header>, p: Pre, message: seq<Header>, maxCommitments: nat)
      requires Ok() && PresyncFits(hs, p) && |p.commitments| <= maxCommitments
      requires Continuous(env, message) && (message != [] ==> message[0].prev == env.hashOf(p.last))
      requires AdmitsAll(p, message, maxCommitments)
      ensures PresyncFits(hs + message, AdmittedAll(p, message)) && |Bits(hs + message)| <= maxCommitments
      decreases |message|
    {
      if message == [] {
        assert hs + message == hs;
      } else {
        assert hs + message == hs + [message[0]] + message[1..];
        PresyncSnoc(hs, p, message[0]);
        AdmittedFits(hs + [message[0]], Admitted(p, message[0]), message[1..], maxCommitments);
      }
    }

    lemma NextAdmitted(hs: seq<Header>, p: Pre, h: Header, all: seq<Header>, maxCommitments: nat)
      requires Ok() && PresyncFits(hs, p) && hs + [h] <= all
      requires Chain(all) && |Bits(all)| <= maxCommitments
      ensures Admits(p, h, maxCommitments) && PresyncFits(hs + [h], Admitted(p, h))
    {
      assert all[..|hs| + 1] == hs + [h];
      env.LinkedPrefix(all, start.hash, start.header.bits, start.height, |hs| + 1);
      env.CommitBitsPrefix(all, |hs| + 1, start.height);
      Snoc(hs, h);
    }

    /** A message that extends the chain within the commitment bound is taken. */
    lemma {:induction false} ChainAdmitted(hs: seq<Header>, p: Pre, message: seq<Header>, maxCommitments: nat)
      requires Ok() && PresyncFits(hs, p)
      requires Chain(hs + message) && |Bits(hs + message)| <= maxCommitments
      ensures AdmitsAll(p, message, maxCommitments)
      decreases |message|
    {
      if message != [] {
        var h, rest := message[0], message[1..];
        assert hs + message == hs + [h] + rest;
        NextAdmitted(hs, p, h, hs + message, maxCommitments);
        ChainAdmitted(hs + [h], Admitted(p, h), rest, maxCommitments);
      }
    }

    /** A connecting message is taken exactly when the chain stays permitted and its commitments
        stay within the bound. */
    lemma MessageAdmitted(hs: seq<Header>, p: Pre, message: seq<Header>, maxCommitments: nat)
      requires Ok() && PresyncFits(hs, p) && |p.commitments| <= maxCommitments
      requires Continuous(env, message) && (message != [] ==> message[0].prev == env.hashOf(p.last))
      ensures AdmitsAll(p, message, maxCommitments) <==>
              Chain(hs + message) && |Bits(hs + message)| <= maxCommitments
      ensures AdmitsAll(p, message, maxCommitments) ==> PresyncFits(hs + message, AdmittedAll(p, message))
    {
      if AdmitsAll(p, message, maxCommitments) {
        AdmittedFits(hs, p, message, maxCommitments);
      } else if Chain(hs + message) && |Bits(hs + message)| <= maxCommitments {
        ChainAdmitted(hs, p, message, maxCommitments);
      }
    }

    // ---------------------------------------------------------------- the second pass, in every phase

    /** Only the beginning is released, and before the work requirement is met only what has
        enough accepted headers on top. */
    predicate ReleaseFits(accepted: seq<Header>, released: seq<Header>) {
      && released <= accepted
      && (released != [] ==> Reached(accepted) || |accepted| - |released| >= REDOWNLOAD_BUFFER_SIZE)
    }

    /** The checked headers are those accepted before the work requirement was met. */
    predicate CheckFits(accepted: seq<Header>, checked: nat) {
      && checked <= |accepted|
      && !Reached(accepted[..checked])
      && (Reached(accepted) <==> checked < |accepted|)
      && (checked < |accepted| ==> Reached(accepted[..checked + 1]))
    }

    /** The bits of the checked headers and the bits left are the bits of the first pass. */
    predicate BitsFit(hist: History, left: seq<bool>) {
      && hist.checked <= |hist.accepted|
      && Bits(hist.accepted[..hist.checked]) + left == Bits(hist.presynced)
    }

    /** The accepted headers are a permitted chain from the start, only their beginning has been
        released, and up to the work requirement their commitment bits are those of the first
        pass, height by height. */
    ghost predicate HistoryFits(hist: History) {
      && Chain(hist.accepted)
      && ReleaseFits(hist.accepted, hist.released)
      && CheckFits(hist.accepted, hist.checked)
      && (exists left :: BitsFit(hist, left))
    }

    lemma EmptyHistoryFits(presynced: seq<Header>)
      ensures HistoryFits(History(presynced, [], [], 0))
      ensures BitsFit(History(presynced, [], [], 0), Bits(presynced))
    {
      assert BitsFit(History(presynced, [], [], 0), Bits(presynced));
    }

    // ---------------------------------------------------------------- the second pass, while it runs

    /** The released headers followed by the headers the buffer stands for are exactly the accepted ones. */
    predicate BufferFits(hist: History, r: Redo) {
      && hist.accepted == hist.released + env.Rebuilt(r.buffer, r.firstPrev)
      && r.firstPrev == env.TipHash(hist.released, start.hash)
    }

    predicate TipFits(accepted: seq<Header>, r: Redo) {
      && r.lastHash == env.TipHash(accepted, start.hash)
      && r.lastHeight == start.height + |accepted|
      && r.work == env.WorkOf(accepted, start.work)
      && (r.all <==> Reached(accepted))
    }

    ghost predicate RedownloadFits(hist: History, r: Redo) {
      && HistoryFits(hist) && BufferFits(hist, r) && TipFits(hist.accepted, r) && BitsFit(hist, r.commitments)
    }

    /** The buffer is empty only before the first header. */
    predicate Primed(hist: History, r: Redo) { r.buffer == [] ==> hist.accepted == [] }

    lemma RedownloadStarts(presynced: seq<Header>)
      ensures RedownloadFits(History(presynced, [], [], 0),
                             Redo([], start.hash, start.hash, start.height, start.work, false, Bits(presynced)))
    {
      EmptyHistoryFits(presynced);
    }

    /** The difficulty the next header is measured against. */
    function PreviousBits(r: Redo): nat {
      if r.buffer != [] then r.buffer[|r.buffer| - 1].bits else start.header.bits
    }

    function WorkWith(r: Redo, h: Header): nat { AddWork(r.work, env.proof(h.bits)) }

    predicate AllWith(r: Redo, h: Header) { r.all || WorkWith(r, h) >= required }

    /** Whether the next header is taken. */
    predicate Takes(r: Redo, h: Header) {
      && h.prev == r.lastHash
      && env.permitted(r.lastHeight + 1, PreviousBits(r), h.bits)
      && (!AllWith(r, h) && env.Commits(r.lastHeight + 1) ==> r.commitments != [] && r.commitments[0] == env.BitOf(h))
    }

    function Taken(r: Redo, h: Header): Redo {
      Redo(r.buffer + [Compress(h)], r.firstPrev, env.hashOf(h), r.lastHeight + 1, WorkWith(r, h), AllWith(r, h),
           if !AllWith(r, h) && env.Commits(r.lastHeight + 1) && r.commitments != [] then r.commitments[1..]
           else r.commitments)
    }

    function Grown(r: Redo, hist: History, h: Header): History {
      hist.(accepted := hist.accepted + [h], checked := if AllWith(r, h) then hist.checked else hist.checked + 1)
    }

    /** The fallback to the start's difficulty is used for the first header only. */
    lemma PreviousBitsAreTheTips(hist: History, r: Redo)
      requires BufferFits(hist, r) && Primed(hist, r)
      ensures PreviousBits(r) == env.TipBits(hist.accepted, start.header.bits)
    {
      env.RebuiltLength(r.buffer, r.firstPrev);
    }

    /** Compressing the next header and rebuilding it gives it back. */
    lemma BufferGrows(hist: History, r: Redo, h: Header)
      requires BufferFits(hist, r) && h.prev == env.TipHash(hist.accepted, start.hash)
      ensures BufferFits(Grown(r, hist, h), Taken(r, h))
    {
      env.RebuiltLength(r.buffer, r.firstPrev);
      var before := env.Rebuilt(r.buffer, r.firstPrev);
      assert h.prev == env.TipHash(before, r.firstPrev);
      var buffer' := r.buffer + [Compress(h)];
      assert buffer'[..|r.buffer|] == r.buffer;
      assert env.Rebuilt(buffer', r.firstPrev) == before + [h];
    }

    lemma TipGrows(hist: History, r: Redo, h: Header)
      requires TipFits(hist.accepted, r)
      requires CheckFits(hist.accepted, hist.checked) && ReleaseFits(hist.accepted, hist.released)
      ensures var hist', r' := Grown(r, hist, h), Taken(r, h);
              && TipFits(hist'.accepted, r')
              && CheckFits(hist'.accepted, hist'.checked) && ReleaseFits(hist'.accepted, hist'.released)
    {
      TipItselfGrows(hist, r, h);
      hide TipFits;
      var a := hist.accepted;
      assert (a + [h])[..|a| + 1] == a + [h];
      if AllWith(r, h) {
        assert (a + [h])[..hist.checked] == a[..hist.checked];
        assert hist.checked < |a| ==> (a + [h])[..hist.checked + 1] == a[..hist.checked + 1];
      }
    }

    lemma TipItselfGrows(hist: History, r: Redo, h: Header)
      requires TipFits(hist.accepted, r)
      ensures TipFits(Grown(r, hist, h).accepted, Taken(r, h))
    {
      Snoc(hist.accepted, h);
    }

    /** A bit is taken off the front exactly when its height is passed. */
    lemma BitsShrink(hist: History, r: Redo, h: Header)
      requires BitsFit(hist, r.commitments) && Takes(r, h)
      requires TipFits(hist.accepted, r) && CheckFits(hist.accepted, hist.checked)
      ensures BitsFit(Grown(r, hist, h), Taken(r, h).commitments)
    {
      var a := hist.accepted;
      if AllWith(r, h) {
        assert (a + [h])[..hist.checked] == a[..hist.checked];
      } else {
        Snoc(a, h);
        assert a[..hist.checked] == a && (a + [h])[..|a| + 1] == a + [h];
        if env.Commits(r.lastHeight + 1) {
          assert r.commitments == [r.commitments[0]] + r.commitments[1..];
        }
      }
    }

    lemma ChainGrows(hist: History, r: Redo, h: Header)
      requires Chain(hist.accepted) && BufferFits(hist, r) && TipFits(hist.accepted, r) && Primed(hist, r)
      requires Takes(r, h)
      ensures h.prev == env.TipHash(hist.accepted, start.hash) && Chain(Grown(r, hist, h).accepted)
    {
      PreviousBitsAreTheTips(hist, r);
      Snoc(hist.accepted, h);
    }

    lemma RedownloadGrows(hist: History, r: Redo, h: Header)
      requires RedownloadFits(hist, r) && Primed(hist, r) && Takes(r, h)
      ensures RedownloadFits(Grown(r, hist, h), Taken(r, h))
    {
      hide Chain, BufferFits, TipFits, CheckFits, ReleaseFits, BitsFit, Takes, Taken, Grown, Primed;
      ChainGrows(hist, r, h);
      BufferGrows(hist, r, h);
      TipGrows(hist, r, h);
      BitsShrink(hist, r, h);
    }

    /** A whole message: how it is taken, and what it leaves. */
    predicate TakesAll(r: Redo, hs: seq<Header>)
      decreases |hs|
    {
      hs != [] ==> Takes(r, hs[0]) && TakesAll(Taken(r, hs[0]), hs[1..])
    }

    function TakenAll(r: Redo, hs: seq<Header>): Redo
      decreases |hs|
    {
      if hs == [] then r else TakenAll(Taken(r, hs[0]), hs[1..])
    }

    function GrownAll(r: Redo, hist: History, hs: seq<Header>): History
      decreases |hs|
    {
      if hs == [] then hist else GrownAll(Taken(r, hs[0]), Grown(r, hist, hs[0]), hs[1..])
    }

    lemma {:induction false} MessageTaken(hist: History, r: Redo, hs: seq<Header>)
      requires RedownloadFits(hist, r) && Primed(hist, r) && TakesAll(r, hs)
      ensures RedownloadFits(GrownAll(r, hist, hs), TakenAll(r, hs))
      decreases |hs|
    {
      if hs != [] {
        RedownloadGrows(hist, r, hs[0]);
        MessageTaken(Grown(r, hist, hs[0]), Taken(r, hs[0]), hs[1..]);
      }
    }

    lemma {:induction false} MessageAccepted(hist: History, r: Redo, hs: seq<Header>)
      ensures var hist' := GrownAll(r, hist, hs);
              && hist'.presynced == hist.presynced && hist'.released == hist.released
              && hist'.accepted == hist.accepted + hs
      ensures hs != [] || r.buffer != [] ==> TakenAll(r, hs).buffer != []
      decreases |hs|
    {
      if hs != [] {
        MessageAccepted(Grown(r, hist, hs[0]), Taken(r, hs[0]), hs[1..]);
        assert [hs[0]] + hs[1..] == hs;
      }
    }

    function Popped(r: Redo): Redo
      requires r.buffer != []
    {
      r.(buffer := r.buffer[1..], firstPrev := env.hashOf(FullHeader(r.buffer[0], r.firstPrev)))
    }

    lemma BufferPops(hist: History, r: Redo)
      requires BufferFits(hist, r) && r.buffer != []
      ensures BufferFits(hist.(released := hist.released + [FullHeader(r.buffer[0], r.firstPrev)]), Popped(r))
      ensures |hist.accepted| - |hist.released| == |r.buffer|
    {
      env.RebuiltFront(r.buffer, r.firstPrev);
      env.RebuiltLength(r.buffer, r.firstPrev);
    }

    lemma RedownloadPops(hist: History, r: Redo)
      requires RedownloadFits(hist, r) && MayPop(r)
      ensures RedownloadFits(hist.(released := hist.released + [FullHeader(r.buffer[0], r.firstPrev)]), Popped(r))
    {
      BufferPops(hist, r);
      var hist' := hist.(released := hist.released + [FullHeader(r.buffer[0], r.firstPrev)]);
      assert hist'.released <= hist'.accepted;
      assert BitsFit(hist', r.commitments);
    }

    /** What is left and what comes out when a buffer releases all it may. */
    function Drained(r: Redo): (Redo, seq<Header>)
      decreases |r.buffer|
    {
      if !MayPop(r) then (r, []) else
        var (rest, out) := Drained(Popped(r));
        (rest, [FullHeader(r.buffer[0], r.firstPrev)] + out)
    }

    lemma {:induction false} DrainedFits(hist: History, r: Redo)
      requires RedownloadFits(hist, r)
      ensures RedownloadFits(hist.(released := hist.released + Drained(r).1), Drained(r).0)
      decreases |r.buffer|
    {
      if MayPop(r) {
        RedownloadPops(hist, r);
        var first := FullHeader(r.buffer[0], r.firstPrev);
        var hist' := hist.(released := hist.released + [first]);
        DrainedFits(hist', Popped(r));
        var out := Drained(Popped(r)).1;
        assert hist'.released + out == hist.released + ([first] + out);
        assert hist.(released := hist.released + Drained(r).1) == hist'.(released := hist'.released + out);
      } else {
        assert hist.(released := hist.released + []) == hist;
      }
    }

    lemma {:induction false} DrainedShape(r: Redo)
      ensures var rest := Drained(r).0;
              && rest == r.(buffer := rest.buffer, firstPrev := rest.firstPrev)
              && (rest.all ==> rest.buffer == [])
              && (!rest.all ==> |rest.buffer| <= REDOWNLOAD_BUFFER_SIZE)
              && (!rest.all && r.buffer != [] ==> rest.buffer != [])
      decreases |r.buffer|
    {
      if MayPop(r) {
        DrainedShape(Popped(r));
      }
    }

    /** What has been handed out between two messages. */
    function Due(accepted: seq<Header>): seq<Header> {
      if Reached(accepted) then accepted
      else if |accepted| <= REDOWNLOAD_BUFFER_SIZE then []
      else accepted[..|accepted| - REDOWNLOAD_BUFFER_SIZE]
    }

    lemma DrainedIsDue(hist: History, r: Redo)
      requires RedownloadFits(hist, r)
      requires if r.all then r.buffer == [] else |r.buffer| <= REDOWNLOAD_BUFFER_SIZE
      ensures hist.released == Due(hist.accepted)
    {
      env.RebuiltLength(r.buffer, r.firstPrev);
    }

    // ---------------------------------------------------------------- both passes, seen from the peer

    /** A chain of the first pass that is permitted and within the commitment bound. */
    predicate Bounded(chain: seq<Header>, maxCommitments: nat) {
      Chain(chain) && |Bits(chain)| <= maxCommitments
    }

    predicate Worked(chain: seq<Header>) { env.WorkOf(chain, start.work) >= required }

    /** A permitted chain of the second pass whose commitment bits, as long as the work requirement
        is not met, are those of the first pass. */
    ghost predicate Matches(presynced: seq<Header>, chain: seq<Header>) {
      && Chain(chain)
      && forall n :: 0 <= n <= |chain| && !Reached(chain[..n]) ==> Bits(chain[..n]) <= Bits(presynced)
    }

    lemma {:induction false} ReachedStays(hs: seq<Header>, n: nat)
      requires n <= |hs| && Reached(hs[..n])
      ensures Reached(hs)
    {
      if n == |hs| {
        assert hs[..n] == hs;
      } else {
        var init := hs[..|hs| - 1];
        assert init[..n] == hs[..n];
        ReachedStays(init, n);
      }
    }

    lemma HistoryMatches(hist: History)
      requires HistoryFits(hist)
      ensures Matches(hist.presynced, hist.accepted)
    {
      var a, c := hist.accepted, hist.checked;
      forall n | 0 <= n <= |a| && !Reached(a[..n])
        ensures Bits(a[..n]) <= Bits(hist.presynced)
      {
        if n > c {
          assert a[..n][..c + 1] == a[..c + 1];
          ReachedStays(a[..n], c + 1);
        }
        assert a[..c][..n] == a[..n];
        env.CommitBitsPrefix(a[..c], n, start.height);
      }
    }

    lemma MatchesPrefix(presynced: seq<Header>, chain: seq<Header>, hs: seq<Header>)
      requires Matches(presynced, chain) && hs <= chain
      ensures Matches(presynced, hs)
    {
      assert chain[..|hs|] == hs;
      env.LinkedPrefix(chain, start.hash, start.header.bits, start.height, |hs|);
      assert forall n :: 0 <= n <= |hs| ==> hs[..n] == chain[..n];
    }

    /** The next header of a permitted chain names the last one and has a permitted difficulty. */
    lemma NextConnects(hist: History, r: Redo, h: Header)
      requires BufferFits(hist, r) && TipFits(hist.accepted, r) && Primed(hist, r)
      requires Chain(hist.accepted + [h])
      ensures h.prev == r.lastHash && env.permitted(r.lastHeight + 1, PreviousBits(r), h.bits)
    {
      Snoc(hist.accepted, h);
      PreviousBitsAreTheTips(hist, r);
    }

    /** The bit of the next header is the first one left. */
    lemma NextBit(hist: History, r: Redo, h: Header)
      requires BitsFit(hist, r.commitments) && hist.checked == |hist.accepted|
      requires Bits(hist.accepted + [h]) <= Bits(hist.presynced)
      requires env.Commits(start.height + |hist.accepted| + 1)
      ensures r.commitments != [] && r.commitments[0] == env.BitOf(h)
    {
      var a := hist.accepted;
      Snoc(a, h);
      assert a[..|a|] == a;
      assert (Bits(a) + r.commitments)[|Bits(a)|] == env.BitOf(h);
    }

    lemma MatchingHeaderTaken(hist: History, r: Redo, h: Header)
      requires RedownloadFits(hist, r) && Primed(hist, r) && Matches(hist.presynced, hist.accepted + [h])
      ensures Takes(r, h)
    {
      NextConnects(hist, r, h);
      TipItselfGrows(hist, r, h);
      if !AllWith(r, h) && env.Commits(r.lastHeight + 1) {
        var a := hist.accepted;
        assert (a + [h])[..|a| + 1] == a + [h] && (a + [h])[..|a|] == a;
        Snoc(a, h);
        NextBit(hist, r, h);
      }
    }

    lemma {:induction false} MatchingMessageTaken(hist: History, r: Redo, hs: seq<Header>)
      requires RedownloadFits(hist, r) && Primed(hist, r) && Matches(hist.presynced, hist.accepted + hs)
      ensures TakesAll(r, hs)
      decreases |hs|
    {
      hide Matches, Takes, Taken, Reached, Bits, Chain;
      if hs != [] {
        var a := hist.accepted;
        assert a + hs == a + [hs[0]] + hs[1..];
        MatchesPrefix(hist.presynced, a + hs, a + [hs[0]]);
        MatchingHeaderTaken(hist, r, hs[0]);
        RedownloadGrows(hist, r, hs[0]);
        TakenIsPrimed(hist, r, hs[0]);
        MatchingMessageTaken(Grown(r, hist, hs[0]), Taken(r, hs[0]), hs[1..]);
      }
    }

    lemma TakenIsPrimed(hist: History, r: Redo, h: Header)
      ensures Primed(Grown(r, hist, h), Taken(r, h))
    {
    }

    /** A message of the second pass is taken exactly when the chain still matches the first pass. */
    lemma MessageMatches(hist: History, r: Redo, hs: seq<Header>)
      requires RedownloadFits(hist, r) && Primed(hist, r)
      ensures TakesAll(r, hs) <==> Matches(hist.presynced, hist.accepted + hs)
    {
      hide TakesAll, Matches, Primed, BufferFits, TipFits, BitsFit;
      if TakesAll(r, hs) {
        MessageTaken(hist, r, hs);
        MessageAccepted(hist, r, hs);
        HistoryMatches(GrownAll(r, hist, hs));
      } else if Matches(hist.presynced, hist.accepted + hs) {
        MatchingMessageTaken(hist, r, hs);
      }
    }

    /** What one message does to a sync, in terms of the headers alone: no buffer, no stored bits. */
    ghost function Hear(s: Heard, message: seq<Header>, full: bool, maxCommitments: nat): Heard {
      if message == [] || s.phase == Final then s
      else if s.phase == Presync then
        var chain := s.presynced + message;
        if !Bounded(chain, maxCommitments) then s.(phase := Final)
        else s.(phase := if Worked(chain) then Redownload else if full then Presync else Final, presynced := chain)
      else
        var chain := s.accepted + message;
        if !Matches(s.presynced, chain) then s.(phase := Final)
        else s.(phase := if full && !Reached(chain) then Redownload else Final, accepted := chain)
    }

    ghost function HearAll(s: Heard, messages: seq<seq<Header>>, full: seq<bool>, maxCommitments: nat): Heard
      requires |full| == |messages|
    {
      if messages == [] then s else
        var n := |messages| - 1;
        Hear(HearAll(s, messages[..n], full[..n], maxCommitments), messages[n], full[n], maxCommitments)
    }

    lemma HearAllSnoc(s: Heard, messages: seq<seq<Header>>, full: seq<bool>, maxCommitments: nat, i: nat)
      requires |full| == |messages| && i < |messages|
      ensures HearAll(s, messages[..i + 1], full[..i + 1], maxCommitments) ==
              Hear(HearAll(s, messages[..i], full[..i], maxCommitments), messages[i], full[i], maxCommitments)
    {
      assert messages[..i + 1][..i] == messages[..i] && full[..i + 1][..i] == full[..i];
    }

    /** What the state after the first `n` messages owes to them: the first `k` made up the first
        pass and those from there to `j` the second, and the sync goes on, or one message ended it. */
    ghost predicate Parts(s0: Heard, s: Heard, messages: seq<seq<Header>>, full: seq<bool>, maxCommitments: nat,
                          n: nat, k: nat, j: nat)
      requires |full| == |messages| && n <= |messages|
    {
      && k <= j <= n
      && s.presynced == s0.presynced + Flat(messages[..k]) && s.accepted == Flat(messages[k..j])
      && (s.phase == Presync ==> k == n)
      && (s.phase == Redownload ==> j == n)
      && (s.phase == Redownload || s.accepted != [] ==> Bounded(s.presynced, maxCommitments) && Worked(s.presynced))
      && (s.phase == Final ==> Ended(s, messages, full, maxCommitments, k, j))
    }

    /** Why a sync is over: a message was refused, or was not full, or met the requirement. */
    ghost predicate Ended(s: Heard, messages: seq<seq<Header>>, full: seq<bool>, maxCommitments: nat, k: nat, j: nat)
      requires |full| == |messages| && k <= j <= |messages|
    {
      || (k == j && FirstEnded(s, messages, full, maxCommitments, k))
      || (Bounded(s.presynced, maxCommitments) && Worked(s.presynced) && SecondEnded(s, messages, full, k, j))
    }

    ghost predicate FirstEnded(s: Heard, messages: seq<seq<Header>>, full: seq<bool>, maxCommitments: nat, k: nat)
      requires |full| == |messages| && k <= |messages|
    {
      || (k < |messages| && messages[k] != [] && !Bounded(s.presynced + messages[k], maxCommitments))
      || (0 < k && messages[k - 1] != [] && !full[k - 1] && !Worked(s.presynced))
    }

    ghost predicate SecondEnded(s: Heard, messages: seq<seq<Header>>, full: seq<bool>, k: nat, j: nat)
      requires |full| == |messages| && k <= j <= |messages|
    {
      || (j < |messages| && messages[j] != [] && !Matches(s.presynced, s.accepted + messages[j]))
      || (k < j && messages[j - 1] != [] && (!full[j - 1] || Reached(s.accepted)))
    }

    /** A message of the first pass belongs to it unless it is refused. */
    lemma FirstPartsNext(s0: Heard, s: Heard, messages: seq<seq<Header>>, full: seq<bool>, maxCommitments: nat, n: nat)
      returns (k: nat)
      requires |full| == |messages| && n < |messages| && s.phase == Presync
      requires Parts(s0, s, messages, full, maxCommitments, n, n, n)
      ensures k <= n + 1
      ensures Parts(s0, Hear(s, messages[n], full[n], maxCommitments), messages, full, maxCommitments, n + 1, k, k)
    {
      hide Flat, Bounded, Worked, Matches;
      FlatSnoc(messages, n);
      NothingFlat();
      k := if messages[n] == [] || Bounded(s.presynced + messages[n], maxCommitments) then n + 1 else n;
      assert messages[n..n] == messages[k..k] == [];
    }

    /** A message of the second pass belongs to it unless it is refused. */
    lemma SecondPartsNext(s0: Heard, s: Heard, messages: seq<seq<Header>>, full: seq<bool>, maxCommitments: nat,
                          n: nat, k: nat)
      returns (j: nat)
      requires |full| == |messages| && n < |messages| && s.phase == Redownload && k <= n
      requires Parts(s0, s, messages, full, maxCommitments, n, k, n)
      ensures k <= j <= n + 1
      ensures Parts(s0, Hear(s, messages[n], full[n], maxCommitments), messages, full, maxCommitments, n + 1, k, j)
    {
      hide Flat, Bounded, Worked, Matches;
      FlatSnoc(messages[k..], n - k);
      assert messages[k..][..n - k] == messages[k..n] && messages[k..][..n - k + 1] == messages[k..n + 1];
      j := if messages[n] == [] || Matches(s.presynced, s.accepted + messages[n]) then n + 1 else n;
    }

    /** Whatever a peer sends, its messages fall into the parts above. */
    lemma {:induction false} HeardParts(s0: Heard, messages: seq<seq<Header>>, full: seq<bool>, maxCommitments: nat,
                                        n: nat)
      returns (k: nat, j: nat)
      requires |full| == |messages| && n <= |messages| && s0.phase == Presync && s0.accepted == []
      ensures Parts(s0, HearAll(s0, messages[..n], full[..n], maxCommitments), messages, full, maxCommitments, n, k, j)
    {
      hide Flat, Bounded, Worked, Matches, Hear, Ended;
      if n == 0 {
        k, j := 0, 0;
        NothingFlat();
      } else {
        k, j := HeardParts(s0, messages, full, maxCommitments, n - 1);
        var s := HearAll(s0, messages[..n - 1], full[..n - 1], maxCommitments);
        HearAllSnoc(s0, messages, full, maxCommitments, n - 1);
        match s.phase
        case Presync =>
          k := FirstPartsNext(s0, s, messages, full, maxCommitments, n - 1);
          j := k;
        case Redownload =>
          j := SecondPartsNext(s0, s, messages, full, maxCommitments, n - 1, k);
        case Final =>
          OverStays(s, messages[n - 1], full[n - 1], maxCommitments);
      }
    }

    lemma OverStays(s: Heard, message: seq<Header>, full: bool, maxCommitments: nat)
      requires s.phase == Final
      ensures Hear(s, message, full, maxCommitments) == s
    {
    }

    // ---------------------------------------------------------------- a peer that serves the same chain again

    /** The chain served in the second pass agrees with the first pass as far as both go, the
        first pass met the work requirement, and the second does not overflow the work counter. */
    ghost predicate Honest(presynced: seq<Header>, chain: seq<Header>) {
      && Chain(chain)
      && (chain <= presynced || presynced <= chain)
      && presynced != [] && start.work + env.TotalProof(presynced) >= required
      && start.work + env.TotalProof(chain) < WORK_LIMIT
    }

    /** The messages bring the chain up to the work requirement with the last of them. */
    ghost predicate LastReaches(messages: seq<seq<Header>>)
      requires messages != []
    {
      && start.work + env.TotalProof(Flat(messages[..|messages| - 1])) < required
      && required <= start.work + env.TotalProof(Flat(messages)) < WORK_LIMIT
    }

    lemma ProofOfSome(messages: seq<seq<Header>>, i: nat)
      requires i <= |messages|
      ensures env.TotalProof(Flat(messages[..i])) <= env.TotalProof(Flat(messages))
    {
      FlatPrefix(messages, i);
      var some := Flat(messages[..i]);
      assert Flat(messages)[..|some|] == some;
      env.TotalProofPrefix(Flat(messages), |some|);
    }

    /** Up to any message but the last the requirement is not met; with the last it is. */
    lemma ReachedWithTheLast(messages: seq<seq<Header>>, i: nat)
      requires Messages(env, messages) && LastReaches(messages) && i < |messages|
      ensures var hs := Flat(messages[..i + 1]);
              && (Reached(hs) <==> i == |messages| - 1)
              && (env.WorkOf(hs, start.work) >= required <==> i == |messages| - 1)
    {
      var hs, n := Flat(messages[..i + 1]), |messages|;
      FlatSnoc(messages, i);
      ProofOfSome(messages, i + 1);
      env.WorkWithoutOverflow(hs, start.work, required);
      if i == n - 1 {
        assert messages[..n] == messages;
      } else {
        assert messages[..n - 1][..i + 1] == messages[..i + 1];
        ProofOfSome(messages[..n - 1], i + 1);
      }
    }

    lemma SameChainIsHonest(first: seq<seq<Header>>, second: seq<seq<Header>>)
      requires Messages(env, first) && LastReaches(first)
      requires second != [] && LastReaches(second) && Chain(Flat(second))
      requires Flat(second) <= Flat(first) || Flat(first) <= Flat(second)
      ensures Honest(Flat(first), Flat(second))
    {
      FlatSnoc(first, |first| - 1);
      assert first[..|first|] == first;
    }

    /** Short of the work requirement an honest chain has not used up the first pass. */
    lemma NotYetReached(presynced: seq<Header>, hs: seq<Header>)
      requires hs <= presynced || presynced <= hs
      requires presynced != [] && start.work + env.TotalProof(presynced) >= required
      requires start.work + env.TotalProof(hs) < WORK_LIMIT
      requires !Reached(hs)
      ensures hs < presynced
    {
      if presynced <= hs {
        assert hs[..|presynced|] == presynced;
        env.TotalProofPrefix(hs, |presynced|);
        env.WorkWithoutOverflow(hs, start.work, required);
      }
    }

    /** An honest chain matches the first pass, wherever it is cut. */
    lemma HonestMatches(presynced: seq<Header>, chain: seq<Header>, hs: seq<Header>)
      requires Honest(presynced, chain) && hs <= chain
      ensures Matches(presynced, hs)
    {
      assert chain[..|hs|] == hs;
      env.LinkedPrefix(chain, start.hash, start.header.bits, start.height, |hs|);
      forall n | 0 <= n <= |hs| && !Reached(hs[..n])
        ensures Bits(hs[..n]) <= Bits(presynced)
      {
        assert hs[..n] == chain[..n];
        env.TotalProofPrefix(chain, n);
        NotYetReached(presynced, hs[..n]);
        assert presynced[..n] == hs[..n];
        env.CommitBitsPrefix(presynced, n, start.height);
      }
    }

    /** No header of an honest chain is refused. */
    lemma HonestMessageTaken(hist: History, r: Redo, hs: seq<Header>, chain: seq<Header>)
      requires RedownloadFits(hist, r) && Primed(hist, r)
      requires Honest(hist.presynced, chain) && hist.accepted + hs <= chain
      ensures TakesAll(r, hs)
    {
      HonestMatches(hist.presynced, chain, hist.accepted + hs);
      MessageMatches(hist, r, hs);
    }

    /** The next message of an honest peer is taken, and meets the requirement if it is the last. */
    lemma HonestRound(hist: History, r: Redo, messages: seq<seq<Header>>, i: nat)
      requires RedownloadFits(hist, r) && Primed(hist, r)
      requires Messages(env, messages) && LastReaches(messages) && i < |messages|
      requires Honest(hist.presynced, Flat(messages)) && hist.accepted == Flat(messages[..i])
      ensures Matches(hist.presynced, hist.accepted + messages[i])
      ensures hist.accepted + messages[i] == Flat(messages[..i + 1])
      ensures Reached(hist.accepted + messages[i]) <==> i == |messages| - 1
    {
      FlatSnoc(messages, i);
      FlatPrefix(messages, i + 1);
      HonestMatches(hist.presynced, Flat(messages), hist.accepted + messages[i]);
      ReachedWithTheLast(messages, i);
    }

    /** The next message of the first pass extends a permitted chain within the bound. */
    lemma FirstRound(messages: seq<seq<Header>>, i: nat)
      requires i < |messages| && Chain(Flat(messages))
      ensures Flat(messages[..i + 1]) == Flat(messages[..i]) + messages[i]
      ensures Chain(Flat(messages[..i + 1])) && |Bits(Flat(messages[..i + 1]))| <= |Bits(Flat(messages))|
    {
      FlatSnoc(messages, i);
      FlatPrefix(messages, i + 1);
      var chain, hs := Flat(messages), Flat(messages[..i + 1]);
      assert chain[..|hs|] == hs;
      env.LinkedPrefix(chain, start.hash, start.header.bits, start.height, |hs|);
      env.CommitBitsPrefix(chain, |hs|, start.height);
    }
  }
}
