/**
 HeadersSyncState: downloads a peer's headers twice. The first pass keeps one bit per 606
 headers and the work; the second compares, buffers the headers without their predecessor
 hashes, and releases them once enough verified headers lie on top.
 */
module HeadersSync {
  import opened HeadersModel
  import opened HeadersProtocol

  class HeadersSyncState {
    const setting: Setting
    const maxCommitments: nat

    var downloadState: Phase
    var currentChainWork: nat
    var headerCommitments: seq<bool>
    var lastHeaderReceived: Header
    var currentHeight: nat
    var redownloadedHeaders: seq<CompressedHeader>
    var bufferLastHeight: nat
    var bufferLastHash: Hash
    var bufferFirstPrevHash: Hash
    var redownloadChainWork: nat
    var processAllRemaining: bool

    /** The headers of both passes since the sync began. */
    ghost var hist: History

    function PreFields(): Pre
      reads this
    {
      Pre(lastHeaderReceived, currentHeight, currentChainWork, headerCommitments)
    }

    function RedoFields(): Redo
      reads this
    {
      Redo(redownloadedHeaders, bufferFirstPrevHash, bufferLastHash, bufferLastHeight,
           redownloadChainWork, processAllRemaining, headerCommitments)
    }

    /** The sync as its peer could follow it. */
    ghost function Heard(): Heard
      reads this
    {
      HeadersProtocol.Heard(downloadState, hist.presynced, hist.accepted)
    }

    ghost predicate Valid()
      reads this
    {
      && setting.Ok() && setting.HistoryFits(hist) && hist.released == setting.Due(hist.accepted)
      && match downloadState
         case Presync =>
           && hist.accepted == [] && hist.released == [] && hist.checked == 0 && !processAllRemaining
           && setting.PresyncFits(hist.presynced, PreFields()) && |headerCommitments| <= maxCommitments
         case Redownload =>
           && setting.RedownloadFits(hist, RedoFields()) && setting.Primed(hist, RedoFields())
           && !processAllRemaining && |redownloadedHeaders| <= REDOWNLOAD_BUFFER_SIZE
         case Final => true
    }

    constructor (setting: Setting, maxCommitments: nat)
      requires setting.Ok()
      ensures Valid() && downloadState == Presync && hist == History([], [], [], 0)
      ensures this.setting == setting && this.maxCommitments == maxCommitments
    {
      this.setting, this.maxCommitments := setting, maxCommitments;
      downloadState := Presync;
      currentChainWork := setting.start.work;
      headerCommitments := [];
      lastHeaderReceived := setting.start.header;
      currentHeight := setting.start.height;
      redownloadedHeaders := [];
      bufferLastHeight, bufferLastHash, bufferFirstPrevHash := 0, 0, 0;
      redownloadChainWork := 0;
      processAllRemaining := false;
      hist := History([], [], [], 0);
      setting.EmptyHistoryFits([]);
    }

    method Finalize()
      modifies this
      ensures downloadState == Final && hist == old(hist)
      ensures PreFields() == Pre(NULL_HEADER, 0, old(currentChainWork), [])
      ensures RedoFields() == Redo([], 0, 0, old(bufferLastHeight), old(redownloadChainWork), false, [])
    {
      headerCommitments := [];
      lastHeaderReceived := NULL_HEADER;
      redownloadedHeaders := [];
      bufferLastHash, bufferFirstPrevHash := 0, 0;
      processAllRemaining := false;
      currentHeight := 0;
      downloadState := Final;
    }

    method ValidateAndProcessSingleHeader(current: Header) returns (ok: bool)
      modifies this
      ensures ok <==> setting.Admits(old(PreFields()), current, maxCommitments)
      ensures ok ==> PreFields() == setting.Admitted(old(PreFields()), current)
      ensures hist == old(hist) && downloadState == old(downloadState)
      ensures processAllRemaining == old(processAllRemaining)
    {
      var nextHeight := currentHeight + 1;
      if !setting.env.permitted(nextHeight, lastHeaderReceived.bits, current.bits) {
        return false;
      }
      if nextHeight % HEADER_COMMITMENT_PERIOD == setting.env.offset {
        headerCommitments := headerCommitments + [setting.env.bit(setting.env.hashOf(current))];
        if |headerCommitments| > maxCommitments {
          return false;
        }
      }
      currentChainWork := AddWork(currentChainWork, setting.env.proof(current.bits));
      lastHeaderReceived := current;
      currentHeight := nextHeight;
      return true;
    }

    /** The headers of one connecting message, one after the other. */
    method ProcessHeaders(headers: seq<Header>) returns (ok: bool)
      modifies this
      ensures ok <==> setting.AdmitsAll(old(PreFields()), headers, maxCommitments)
      ensures ok ==> PreFields() == setting.AdmittedAll(old(PreFields()), headers)
      ensures hist == old(hist) && downloadState == old(downloadState)
      ensures processAllRemaining == old(processAllRemaining)
    {
      var i := 0;
      while i < |headers|
        invariant 0 <= i <= |headers|
        invariant setting.AdmitsAll(old(PreFields()), headers, maxCommitments) <==>
                  setting.AdmitsAll(PreFields(), headers[i..], maxCommitments)
        invariant setting.AdmittedAll(old(PreFields()), headers) == setting.AdmittedAll(PreFields(), headers[i..])
        invariant hist == old(hist) && downloadState == old(downloadState)
        invariant processAllRemaining == old(processAllRemaining)
      {
        assert headers[i..][0] == headers[i] && headers[i..][1..] == headers[i + 1..];
        ok := ValidateAndProcessSingleHeader(headers[i]);
        if !ok {
          return;
        }
        i := i + 1;
      }
      return true;
    }

    method BeginRedownload()
      modifies this
      ensures downloadState == Redownload && hist == old(hist)
      ensures RedoFields() == Redo([], setting.start.hash, setting.start.hash, setting.start.height,
                                   setting.start.work, old(processAllRemaining), old(headerCommitments))
    {
      redownloadedHeaders := [];
      bufferLastHeight := setting.start.height;
      bufferFirstPrevHash := setting.start.hash;
      bufferLastHash := setting.start.hash;
      redownloadChainWork := setting.start.work;
      downloadState := Redownload;
    }

    /** The first pass over one message; on enough work the second pass begins. */
    method ValidateAndStoreHeadersCommitments(headers: seq<Header>) returns (ok: bool)
      requires Valid() && downloadState == Presync && headers != [] && Continuous(setting.env, headers)
      modifies this
      ensures ok <==> setting.Chain(old(hist.presynced) + headers) &&
                      |setting.Bits(old(hist.presynced) + headers)| <= maxCommitments
      ensures hist == if ok then old(hist).(presynced := old(hist.presynced) + headers) else old(hist)
      ensures ok ==> Valid()
      ensures ok ==>
                downloadState == (if setting.env.WorkOf(hist.presynced, setting.start.work) >= setting.required
                                  then Redownload else Presync)
    {
      if headers[0].prev != setting.env.hashOf(lastHeaderReceived) {
        setting.Connects(hist.presynced, PreFields(), headers);
        return false;
      }
      setting.MessageAdmitted(hist.presynced, PreFields(), headers, maxCommitments);
      ok := ProcessHeaders(headers);
      if ok {
        hist := hist.(presynced := hist.presynced + headers);
        setting.EmptyHistoryFits(hist.presynced);
        setting.RedownloadStarts(hist.presynced);
        if currentChainWork >= setting.required {
          BeginRedownload();
        }
      }
    }

    method ValidateAndStoreRedownloadedHeader(header: Header) returns (ok: bool)
      modifies this
      ensures ok <==> setting.Takes(old(RedoFields()), header)
      ensures ok ==> RedoFields() == setting.Taken(old(RedoFields()), header)
      ensures hist == old(hist) && downloadState == old(downloadState)
    {
      var env := setting.env;
      var nextHeight := bufferLastHeight + 1;
      if header.prev != bufferLastHash {
        return false;
      }
      var previousBits := if redownloadedHeaders != []
                          then redownloadedHeaders[|redownloadedHeaders| - 1].bits else setting.start.header.bits;
      if !env.permitted(nextHeight, previousBits, header.bits) {
        return false;
      }
      redownloadChainWork := AddWork(redownloadChainWork, env.proof(header.bits));
      if redownloadChainWork >= setting.required {
        processAllRemaining := true;
      }
      if !processAllRemaining && nextHeight % HEADER_COMMITMENT_PERIOD == env.offset {
        if |headerCommitments| == 0 {
          return false;
        }
        var commitment := env.bit(env.hashOf(header));
        var expected := headerCommitments[0];
        headerCommitments := headerCommitments[1..];
        if commitment != expected {
          return false;
        }
      }
      redownloadedHeaders := redownloadedHeaders + [Compress(header)];
      bufferLastHeight := nextHeight;
      bufferLastHash := env.hashOf(header);
      return true;
    }

    method PopHeadersReadyForAcceptance() returns (ret: seq<Header>)
      modifies this
      ensures RedoFields() == setting.Drained(old(RedoFields())).0 && ret == setting.Drained(old(RedoFields())).1
      ensures hist == old(hist) && downloadState == old(downloadState)
    {
      ret := [];
      while |redownloadedHeaders| > REDOWNLOAD_BUFFER_SIZE || (|redownloadedHeaders| > 0 && processAllRemaining)
        invariant setting.Drained(old(RedoFields())).0 == setting.Drained(RedoFields()).0
        invariant setting.Drained(old(RedoFields())).1 == ret + setting.Drained(RedoFields()).1
        invariant hist == old(hist) && downloadState == old(downloadState)
        decreases |redownloadedHeaders|
      {
        ghost var out := setting.Drained(setting.Popped(RedoFields())).1;
        var first := FullHeader(redownloadedHeaders[0], bufferFirstPrevHash);
        assert ret + ([first] + out) == (ret + [first]) + out;
        ret := ret + [first];
        redownloadedHeaders := redownloadedHeaders[1..];
        bufferFirstPrevHash := setting.env.hashOf(first);
      }
      assert ret + [] == ret;
    }

    /** The second pass over one message. */
    method ValidateAndStoreRedownloadedHeaders(headers: seq<Header>) returns (ok: bool)
      modifies this
      ensures ok <==> setting.TakesAll(old(RedoFields()), headers)
      ensures ok ==> RedoFields() == setting.TakenAll(old(RedoFields()), headers)
      ensures ok ==> hist == setting.GrownAll(old(RedoFields()), old(hist), headers)
      ensures !ok ==> hist == old(hist)
      ensures downloadState == old(downloadState)
    {
      ghost var before := RedoFields();
      var i := 0;
      while i < |headers|
        invariant 0 <= i <= |headers|
        invariant setting.TakesAll(before, headers) <==> setting.TakesAll(RedoFields(), headers[i..])
        invariant setting.TakenAll(before, headers) == setting.TakenAll(RedoFields(), headers[i..])
        invariant hist == old(hist) && downloadState == old(downloadState)
      {
        assert headers[i..][0] == headers[i] && headers[i..][1..] == headers[i + 1..];
        ok := ValidateAndStoreRedownloadedHeader(headers[i]);
        if !ok {
          return;
        }
        i := i + 1;
      }
      hist := setting.GrownAll(before, hist, headers);
      return true;
    }

    /** The second pass over one message, and the headers it sets free. */
    method Redownloaded(received: seq<Header>) returns (ok: bool, out: seq<Header>)
      requires Valid() && downloadState == Redownload && received != []
      modifies this
      ensures ok <==> setting.Matches(old(hist.presynced), old(hist.accepted) + received)
      ensures downloadState == Redownload && setting.HistoryFits(hist) && hist.released == setting.Due(hist.accepted)
      ensures hist.presynced == old(hist.presynced) && hist.released == old(hist.released) + out
      ensures hist.accepted == if ok then old(hist.accepted) + received else old(hist.accepted)
      ensures ok ==> setting.RedownloadFits(hist, RedoFields())
      ensures ok && processAllRemaining ==> redownloadedHeaders == []
      ensures ok && !processAllRemaining ==>
                setting.Primed(hist, RedoFields()) && |redownloadedHeaders| <= REDOWNLOAD_BUFFER_SIZE
    {
      hide Setting.Matches, Setting.TakesAll, Setting.TakenAll, Setting.GrownAll, Setting.Drained, Setting.Due,
           Setting.BufferFits, Setting.BitsFit, Setting.CheckFits, Setting.ReleaseFits, Setting.Chain;
      out := [];
      ghost var before, r := hist, RedoFields();
      setting.MessageMatches(hist, RedoFields(), received);
      ok := ValidateAndStoreRedownloadedHeaders(received);
      if ok {
        setting.MessageTaken(before, r, received);
        setting.MessageAccepted(before, r, received);
        setting.DrainedFits(hist, RedoFields());
        setting.DrainedShape(RedoFields());
        out := PopHeadersReadyForAcceptance();
        hist := hist.(released := hist.released + out);
        setting.DrainedIsDue(hist, RedoFields());
      }
    }

    /** One message from the peer. In the first pass it is accepted exactly when the chain stays
        permitted and within the commitment bound; in the second exactly when the chain matches
        the first one up to the work requirement. The sync goes on exactly when more is requested. */
    method ProcessNextHeaders(received: seq<Header>, full: bool) returns (ret: ProcessingResult)
      requires Valid() && Continuous(setting.env, received)
      modifies this
      ensures Valid() && Heard() == setting.Hear(old(Heard()), received, full, maxCommitments)
      ensures received == [] || old(downloadState) == Final ==>
                ret == ProcessingResult([], false, false) && hist == old(hist) && downloadState == old(downloadState)
      ensures received != [] && old(downloadState) == Presync ==>
                var chain := old(hist.presynced) + received;
                && (ret.success <==> setting.Chain(chain) && |setting.Bits(chain)| <= maxCommitments)
                && hist == (if ret.success then old(hist).(presynced := chain) else old(hist))
                && ret.headers == [] && hist.accepted == []
                && downloadState == (
                     if ret.success && setting.env.WorkOf(chain, setting.start.work) >= setting.required then Redownload
                     else if ret.success && full then Presync else Final)
                && (ret.requestMore <==> downloadState != Final)
      ensures received != [] && old(downloadState) == Redownload ==>
                && (ret.success <==> setting.Matches(old(hist.presynced), old(hist.accepted) + received))
                && hist.presynced == old(hist.presynced)
                && hist.accepted == (if ret.success then old(hist.accepted) + received else old(hist.accepted))
                && hist.released == old(hist.released) + ret.headers
                && (ret.success && setting.Reached(hist.accepted) ==> hist.released == hist.accepted)
                && downloadState == (
                     if ret.success && !setting.Reached(hist.accepted) && full then Redownload else Final)
                && (ret.requestMore <==> downloadState != Final)
    {
      ret := ProcessingResult([], false, false);
      if received == [] || downloadState == Final {
        return;
      }
      if downloadState == Presync {
        setting.EmptyHistoryFits(hist.presynced + received);
        var ok := ValidateAndStoreHeadersCommitments(received);
        ret := ProcessingResult([], ok, ok && (full || downloadState == Redownload));
      } else {
        var ok, out := Redownloaded(received);
        ret := ProcessingResult(out, ok, ok && !(redownloadedHeaders == [] && processAllRemaining) && full);
      }
      if !(ret.success && ret.requestMore) {
        Finalize();
      }
    }

    /** A whole sync with any peer. Its course is that of the headers alone: the first `k` messages
        make up the first pass and those from there to `j` the second, with nothing accepted twice
        or left out, and a sync that is over was ended by a message that was refused, was not
        full, or met the requirement. What is handed out, message after message, is the beginning
        of a permitted chain that lies deep enough, or all of it once the work is reached. There
        is none of it unless the first pass was permitted and had the required work; and up to the
        work requirement the bits of the second chain are those of the first. */
    method RunSync(messages: seq<seq<Header>>, full: seq<bool>) returns (out: seq<Header>, ghost k: nat, ghost j: nat)
      requires Valid() && downloadState == Presync && |full| == |messages|
      requires forall i :: 0 <= i < |messages| ==> Continuous(setting.env, messages[i])
      modifies this
      ensures Valid() && Heard() == setting.HearAll(old(Heard()), messages, full, maxCommitments)
      ensures hist.released == out == setting.Due(hist.accepted)
      ensures k <= j <= |messages|
      ensures hist.presynced == old(hist.presynced) + Flat(messages[..k]) && hist.accepted == Flat(messages[k..j])
      ensures downloadState == Presync ==> k == j == |messages|
      ensures downloadState == Redownload ==> j == |messages|
      ensures downloadState == Final ==> setting.Ended(Heard(), messages, full, maxCommitments, k, j)
      ensures hist.accepted != [] || downloadState == Redownload ==>
                setting.Bounded(hist.presynced, maxCommitments) && setting.Worked(hist.presynced)
      ensures setting.Matches(hist.presynced, hist.accepted) && setting.CheckFits(hist.accepted, hist.checked)
      ensures out <= hist.accepted && setting.Chain(hist.accepted)
      ensures out != [] ==> setting.Reached(hist.accepted) || |hist.accepted| - |out| >= REDOWNLOAD_BUFFER_SIZE
      ensures setting.Bits(hist.accepted[..hist.checked]) <= setting.Bits(hist.presynced)
    {
      out := [];
      var i := 0;
      while i < |messages|
        invariant 0 <= i <= |messages|
        invariant Valid() && hist.released == out
        invariant Heard() == setting.HearAll(old(Heard()), messages[..i], full[..i], maxCommitments)
      {
        setting.HearAllSnoc(old(Heard()), messages, full, maxCommitments, i);
        var ret := ProcessNextHeaders(messages[i], full[i]);
        out := out + ret.headers;
        i := i + 1;
      }
      assert messages[..i] == messages && full[..i] == full;
      k, j := setting.HeardParts(old(Heard()), messages, full, maxCommitments, |messages|);
      setting.HistoryMatches(hist);
    }

    /** A peer whose chain is permitted and reaches the work requirement passes the first pass.
        Its messages are full, but for the one that reaches the requirement, which may be shorter. */
    method FirstPass(messages: seq<seq<Header>>, lastFull: bool)
      requires Valid() && downloadState == Presync && hist.presynced == []
      requires Messages(setting.env, messages) && setting.LastReaches(messages)
      requires setting.Chain(Flat(messages)) && |setting.Bits(Flat(messages))| <= maxCommitments
      modifies this
      ensures Valid() && downloadState == Redownload
      ensures hist == History(Flat(messages), [], [], 0)
    {
      var i := 0;
      while i < |messages|
        invariant 0 <= i <= |messages|
        invariant Valid() && hist == History(Flat(messages[..i]), [], [], 0)
        invariant downloadState == if i < |messages| then Presync else Redownload
      {
        setting.FirstRound(messages, i);
        setting.ReachedWithTheLast(messages, i);
        var ret := ProcessNextHeaders(messages[i], i < |messages| - 1 || lastFull);
        i := i + 1;
      }
      assert messages[..i] == messages;
    }

    /** A peer that then serves the same chain again, in full messages until the one that meets the
        requirement, is never refused, and the sync ends with every one of its headers released. */
    method SecondPass(messages: seq<seq<Header>>, lastFull: bool) returns (out: seq<Header>)
      requires Valid() && downloadState == Redownload && hist.accepted == []
      requires Messages(setting.env, messages) && setting.LastReaches(messages)
      requires setting.Honest(hist.presynced, Flat(messages))
      modifies this
      ensures Valid() && downloadState == Final
      ensures out == Flat(messages) && hist.accepted == hist.released == Flat(messages)
    {
      out := [];
      var i := 0;
      while i < |messages|
        invariant 0 <= i <= |messages|
        invariant Valid() && hist.presynced == old(hist.presynced)
        invariant hist.accepted == Flat(messages[..i]) && hist.released == out
        invariant downloadState == if i < |messages| then Redownload else Final
        invariant i == |messages| ==> hist.released == hist.accepted
      {
        setting.HonestRound(hist, RedoFields(), messages, i);
        var ret := ProcessNextHeaders(messages[i], i < |messages| - 1 || lastFull);
        out := out + ret.headers;
        i := i + 1;
      }
      assert messages[..i] == messages;
    }

    /** The whole sync with such a peer. */
    method SyncWithHonestPeer(first: seq<seq<Header>>, firstFull: bool, second: seq<seq<Header>>, secondFull: bool)
      returns (out: seq<Header>)
      requires Valid() && downloadState == Presync && hist.presynced == []
      requires Messages(setting.env, first) && setting.LastReaches(first)
      requires setting.Chain(Flat(first)) && |setting.Bits(Flat(first))| <= maxCommitments
      requires Messages(setting.env, second) && setting.LastReaches(second)
      requires setting.Chain(Flat(second)) && (Flat(second) <= Flat(first) || Flat(first) <= Flat(second))
      modifies this
      ensures downloadState == Final && out == Flat(second)
    {
      FirstPass(first, firstFull);
      setting.SameChainIsHonest(first, second);
      out := SecondPass(second, secondFull);
    }
  }
}
