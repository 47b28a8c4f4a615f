/**
The two-phase headers download of src/headerssync.cpp.  In PRESYNC a peer's headers are
only counted, their work summed and one salted hash bit remembered every 584 headers; once
the work suffices, the headers are downloaded again (REDOWNLOAD), compared with the bits,
kept in compressed form and released when enough work or enough later headers vouch for
them.

Header hashes, the salted bit, the work of a difficulty and the permitted difficulty
changes are parameters (`Rules`).  Work is summed modulo 2^256, as arith_uint256 does.
*/
module HeadersSync {
  import opened Basics
  import opened Numbers

  datatype Header = Header(nVersion: int, hashPrevBlock: Hash, hashMerkleRoot: Hash, nTime: nat, nBits: nat, nNonce: nat)

  datatype CompressedHeader = CompressedHeader(nVersion: int, hashMerkleRoot: Hash, nTime: nat, nBits: nat, nNonce: nat) {
    function GetFullHeader(hashPrevBlock: Hash): Header {
      Header(nVersion, hashPrevBlock, hashMerkleRoot, nTime, nBits, nNonce)
    }
  }

  function Compress(header: Header): CompressedHeader {
    CompressedHeader(header.nVersion, header.hashMerkleRoot, header.nTime, header.nBits, header.nNonce)
  }

  const HEADER_COMMITMENT_PERIOD := 584
  const REDOWNLOAD_BUFFER_SIZE := 13959

  /** The functions this component takes from elsewhere. */
  datatype Rules = Rules(
    permitted: (int, nat, nat) -> bool,  // PermittedDifficultyTransition(height, old bits, new bits)
    hashOf: Header -> Hash,
    commit: Hash -> bool,                // the salted hash bit
    proof: nat -> nat)                   // GetBlockProof of a difficulty

  /** The block the sync starts from, and what the sync was given. */
  datatype Task = Task(rules: Rules, header: Header, hash: Hash, nHeight: nat, nChainWork: nat,
                       minimumRequiredWork: nat, commitOffset: nat, maxCommitments: nat)

  // ---------------------------------------------------------------- header sequences

  function Front<T>(s: seq<T>): seq<T>
    requires s != []
  {
    s[..|s| - 1]
  }

  function Last<T>(s: seq<T>): T
    requires s != []
  {
    s[|s| - 1]
  }

  function TipHash(task: Task, headers: seq<Header>): Hash {
    if headers == [] then task.hash else task.rules.hashOf(Last(headers))
  }

  function TipBits(task: Task, headers: seq<Header>): nat {
    if headers == [] then task.header.nBits else Last(headers).nBits
  }

  /** Each header names its predecessor, the first the start block. */
  ghost predicate Linked(task: Task, headers: seq<Header>) {
    headers == [] || (Linked(task, Front(headers)) && Last(headers).hashPrevBlock == TipHash(task, Front(headers)))
  }

  /** Each difficulty change is permitted, judged against the true predecessor. */
  ghost predicate DifficultyOk(task: Task, headers: seq<Header>) {
    headers == [] ||
    (&& DifficultyOk(task, Front(headers))
     && task.rules.permitted(task.nHeight + |headers|, TipBits(task, Front(headers)), Last(headers).nBits))
  }

  function Work(task: Task, headers: seq<Header>): nat {
    if headers == [] then task.nChainWork
    else (Work(task, Front(headers)) + task.rules.proof(Last(headers).nBits)) % TWO_256
  }

  /** The work reached the minimum at some header of the sequence. */
  ghost predicate Reached(task: Task, headers: seq<Header>) {
    headers != [] && (Reached(task, Front(headers)) || Work(task, headers) >= task.minimumRequiredWork)
  }

  predicate CommitHeight(task: Task, height: int) {
    height % HEADER_COMMITMENT_PERIOD == task.commitOffset
  }

  /** The commitment bits of the headers at the commitment heights. */
  function Commitments(task: Task, headers: seq<Header>): seq<bool> {
    if headers == [] then []
    else Commitments(task, Front(headers)) +
         if CommitHeight(task, task.nHeight + |headers|) then [task.rules.commit(task.rules.hashOf(Last(headers)))] else []
  }

  /** The headers before the one at which the work was reached: those whose bits are compared. */
  ghost function Compared(task: Task, headers: seq<Header>): (r: seq<Header>)
    ensures r <= headers
  {
    if !Reached(task, headers) then headers else Compared(task, Front(headers))
  }

  /** The bits of the redownloaded headers agree with those remembered from presync. */
  ghost predicate CommitmentsMatch(task: Task, presync: seq<Header>, redownloaded: seq<Header>) {
    Commitments(task, Compared(task, redownloaded)) <= Commitments(task, presync)
  }

  /** What presync demands of a further message. */
  ghost predicate PresyncAccepts(task: Task, presync: seq<Header>, message: seq<Header>)
    requires message != []
  {
    && message[0].hashPrevBlock == TipHash(task, presync)
    && DifficultyOk(task, presync + message)
    && |Commitments(task, presync + message)| <= task.maxCommitments
  }

  /** What redownload demands of the headers so far. */
  ghost predicate RedownloadAccepts(task: Task, presync: seq<Header>, redownloaded: seq<Header>) {
    Linked(task, redownloaded) && DifficultyOk(task, redownloaded) && CommitmentsMatch(task, presync, redownloaded)
  }

  /** How many of the redownloaded headers may be out of the buffer. */
  ghost function ReleasedCount(task: Task, redownloaded: seq<Header>): nat {
    if Reached(task, redownloaded) then |redownloaded|
    else if |redownloaded| > REDOWNLOAD_BUFFER_SIZE then |redownloaded| - REDOWNLOAD_BUFFER_SIZE
    else 0
  }

  ghost function CompressAll(headers: seq<Header>): (r: seq<CompressedHeader>)
    ensures |r| == |headers| && forall i | 0 <= i < |r| :: r[i] == Compress(headers[i])
  {
    seq(|headers|, i requires 0 <= i < |headers| => Compress(headers[i]))
  }

  // ---------------------------------------------------------------- prefixes

  lemma AppendOne(headers: seq<Header>, header: Header)
    ensures Front(headers + [header]) == headers && Last(headers + [header]) == header
  {
  }

  /** The predicates are closed under taking prefixes. */
  lemma {:induction false} PrefixOk(task: Task, headers: seq<Header>, n: nat)
    requires n <= |headers|
    ensures Linked(task, headers) ==> Linked(task, headers[..n])
    ensures DifficultyOk(task, headers) ==> DifficultyOk(task, headers[..n])
    ensures Reached(task, headers[..n]) ==> Reached(task, headers)
    ensures Commitments(task, headers[..n]) <= Commitments(task, headers)
    decreases |headers|
  {
    if n < |headers| {
      PrefixOk(task, Front(headers), n);
      assert Front(headers)[..n] == headers[..n];
    } else {
      assert headers[..n] == headers;
    }
  }

  /** A link of a sequence, by position. */
  lemma {:induction false} LinkAt(task: Task, headers: seq<Header>, i: nat)
    requires Linked(task, headers) && i < |headers|
    ensures headers[i].hashPrevBlock == TipHash(task, headers[..i])
    decreases |headers|
  {
    if i < |headers| - 1 {
      LinkAt(task, Front(headers), i);
      assert Front(headers)[..i] == headers[..i];
    } else {
      assert headers[..i] == Front(headers);
    }
  }

  lemma {:induction false} ComparedPrefix(task: Task, headers: seq<Header>, n: nat)
    requires n <= |headers|
    ensures Compared(task, headers[..n]) <= Compared(task, headers)
    decreases |headers|
  {
    PrefixOk(task, headers, n);
    if n < |headers| {
      ComparedPrefix(task, Front(headers), n);
      assert Front(headers)[..n] == headers[..n];
      if !Reached(task, headers) {
        PrefixOk(task, headers, |headers| - 1);
        assert Compared(task, Front(headers)) <= headers;
      }
    } else {
      assert headers[..n] == headers;
    }
  }

  lemma MatchPrefix(task: Task, presync: seq<Header>, headers: seq<Header>, n: nat)
    requires n <= |headers| && CommitmentsMatch(task, presync, headers)
    ensures CommitmentsMatch(task, presync, headers[..n])
  {
    ComparedPrefix(task, headers, n);
    var small, large := Compared(task, headers[..n]), Compared(task, headers);
    PrefixOk(task, large, |small|);
    assert large[..|small|] == small;
  }

  lemma AcceptPrefix(task: Task, presync: seq<Header>, headers: seq<Header>, n: nat)
    requires n <= |headers| && RedownloadAccepts(task, presync, headers)
    ensures RedownloadAccepts(task, presync, headers[..n])
  {
    PrefixOk(task, headers, n);
    MatchPrefix(task, presync, headers, n);
  }

  /** The headers after `i` of a message. */
  ghost function Extended(start: seq<Header>, message: seq<Header>, i: nat): seq<Header>
    requires i <= |message|
  {
    start + message[..i]
  }

  lemma ExtendedEnds(start: seq<Header>, message: seq<Header>)
    ensures Extended(start, message, 0) == start && Extended(start, message, |message|) == start + message
  {
    assert message[..|message|] == message;
  }

  lemma ExtendedNext(task: Task, presync: seq<Header>, start: seq<Header>, message: seq<Header>, i: nat)
    requires i < |message|
    ensures Extended(start, message, i) + [message[i]] == Extended(start, message, i + 1)
    ensures start <= Extended(start, message, i) && start <= Extended(start, message, i + 1)
    ensures RedownloadAccepts(task, presync, Extended(start, message, |message|)) ==>
              RedownloadAccepts(task, presync, Extended(start, message, i + 1))
  {
    hide RedownloadAccepts;
    NextOfMessage(task, presync, start, message, i);
    ExtendedEnds(start, message);
  }

  lemma NextOfMessage(task: Task, presync: seq<Header>, start: seq<Header>, message: seq<Header>, i: nat)
    requires i < |message|
    ensures start + message[..i] + [message[i]] == start + message[..i + 1]
    ensures RedownloadAccepts(task, presync, start + message) ==> RedownloadAccepts(task, presync, start + message[..i + 1])
    ensures DifficultyOk(task, start + message) ==> DifficultyOk(task, start + message[..i + 1])
    ensures |Commitments(task, start + message[..i + 1])| <= |Commitments(task, start + message)|
  {
    var n := |start| + i + 1;
    assert (start + message)[..n] == start + message[..i + 1];
    PrefixOk(task, start + message, n);
    if RedownloadAccepts(task, presync, start + message) {
      AcceptPrefix(task, presync, start + message, n);
    }
  }

  // ---------------------------------------------------------------- one more header

  /** Whether one more redownloaded header passes the commitment check, given the bits left. */
  predicate BitOk(task: Task, header: Header, height: int, bitsLeft: seq<bool>) {
    CommitHeight(task, height) ==> bitsLeft != [] && bitsLeft[0] == task.rules.commit(task.rules.hashOf(header))
  }

  function BitsAfter(task: Task, reached: bool, height: int, bitsLeft: seq<bool>): seq<bool> {
    if !reached && CommitHeight(task, height) && bitsLeft != [] then bitsLeft[1..] else bitsLeft
  }

  ghost function BitsUsed(task: Task, redownloaded: seq<Header>): nat {
    |Commitments(task, Compared(task, redownloaded))|
  }

  /** The checks the code makes on one header are exactly what accepting it means. */
  lemma AcceptOneMore(task: Task, presync: seq<Header>, redownloaded: seq<Header>, header: Header)
    requires RedownloadAccepts(task, presync, redownloaded)
    ensures var next := redownloaded + [header];
            RedownloadAccepts(task, presync, next) <==>
              && header.hashPrevBlock == TipHash(task, redownloaded)
              && task.rules.permitted(task.nHeight + |next|, TipBits(task, redownloaded), header.nBits)
              && (Reached(task, next) ||
                  BitOk(task, header, task.nHeight + |next|, Commitments(task, presync)[BitsUsed(task, redownloaded)..]))
    ensures var next := redownloaded + [header];
            RedownloadAccepts(task, presync, next) ==>
              BitsAfter(task, Reached(task, next), task.nHeight + |next|, Commitments(task, presync)[BitsUsed(task, redownloaded)..])
              == Commitments(task, presync)[BitsUsed(task, next)..]
  {
    var next := redownloaded + [header];
    AppendOne(redownloaded, header);
    if !Reached(task, next) {
      var used, all := Commitments(task, redownloaded), Commitments(task, presync);
      assert Compared(task, redownloaded) == redownloaded;
      var bits := Commitments(task, next);
      if CommitHeight(task, task.nHeight + |next|) {
        var bit := task.rules.commit(task.rules.hashOf(header));
        assert bits == used + [bit];
        assert bits <= all <==> |used| < |all| && all[|used|] == bit;
      } else {
        assert bits == used;
      }
    } else {
      assert Compared(task, next) == Compared(task, redownloaded);
    }
  }

  /** What the fields of the buffer become when one more header is stored. */
  lemma StoreOneMore(task: Task, redownloaded: seq<Header>, released: seq<Header>, header: Header)
    requires released <= redownloaded
    ensures var next := redownloaded + [header];
            && released <= next && released != next
            && CompressAll(next[|released|..]) == CompressAll(redownloaded[|released|..]) + [Compress(header)]
            && TipHash(task, next) == task.rules.hashOf(header)
            && Work(task, next) == (Work(task, redownloaded) + task.rules.proof(header.nBits)) % TWO_256
            && (Reached(task, next) <==> Reached(task, redownloaded) || Work(task, next) >= task.minimumRequiredWork)
  {
    AppendOne(redownloaded, header);
  }

  /** The oldest buffered header, rebuilt from its compressed form and its predecessor's hash,
      is the one that was stored. */
  lemma PopOneMore(task: Task, redownloaded: seq<Header>, released: seq<Header>)
    requires Linked(task, redownloaded) && released <= redownloaded && released != redownloaded
    ensures var k := |released|;
            var next := released + [redownloaded[k]];
            && CompressAll(redownloaded[k..])[0].GetFullHeader(TipHash(task, released)) == redownloaded[k]
            && CompressAll(redownloaded[k..])[1..] == CompressAll(redownloaded[k + 1..])
            && next <= redownloaded && TipHash(task, next) == task.rules.hashOf(redownloaded[k])
  {
    var k := |released|;
    LinkAt(task, redownloaded, k);
    assert redownloaded[..k] == released;
  }

  lemma PresyncOneMore(task: Task, presync: seq<Header>, header: Header)
    requires DifficultyOk(task, presync)
    ensures var next := presync + [header];
            && (DifficultyOk(task, next) <==>
                task.rules.permitted(task.nHeight + |next|, TipBits(task, presync), header.nBits))
            && Commitments(task, next) == Commitments(task, presync) +
                 (if CommitHeight(task, task.nHeight + |next|) then [task.rules.commit(task.rules.hashOf(header))] else [])
            && Work(task, next) == (Work(task, presync) + task.rules.proof(header.nBits)) % TWO_256
  {
    AppendOne(presync, header);
  }

  // ---------------------------------------------------------------- the state machine

  datatype State = PRESYNC | REDOWNLOAD | FINAL

  datatype ProcessingResult = ProcessingResult(powValidatedHeaders: seq<Header>, success: bool, requestMore: bool)

  const NULL_HEADER := Header(0, 0, 0, 0, 0, 0)

  class HeadersSyncState {
    const task: Task
    var currentChainWork: nat
    var headerCommitments: seq<bool>
    var lastHeaderReceived: Header
    var currentHeight: int
    var redownloadedHeaders: seq<CompressedHeader>
    var redownloadBufferLastHeight: int
    var redownloadBufferLastHash: Hash
    var redownloadBufferFirstPrevHash: Hash
    var redownloadChainWork: nat
    var processAllRemainingHeaders: bool
    var downloadState: State

    // History: the headers accepted in presync, accepted in redownload, and released.
    ghost var presync: seq<Header>
    ghost var redownloaded: seq<Header>
    ghost var released: seq<Header>

    /** The fields of the first phase, in terms of the headers accepted. */
    ghost predicate InPresync()
      reads this
    {
      && currentChainWork == Work(task, presync)
      && headerCommitments == Commitments(task, presync) && |headerCommitments| <= task.maxCommitments
      && task.rules.hashOf(lastHeaderReceived) == TipHash(task, presync)
      && lastHeaderReceived.nBits == TipBits(task, presync)
      && currentHeight == task.nHeight + |presync|
      && !processAllRemainingHeaders
      && DifficultyOk(task, presync)
      && redownloaded == [] && released == []
    }

    /** What is known of the presync headers once redownload has begun. */
    ghost predicate PresyncDone()
      reads this
    {
      && presync != [] && DifficultyOk(task, presync) && Work(task, presync) >= task.minimumRequiredWork
      && |Commitments(task, presync)| <= task.maxCommitments
    }

    /** The fields of the second phase, in terms of the headers accepted and released. */
    ghost predicate Buffered()
      reads this
    {
      && PresyncDone()
      && ReleasedOk()
      && redownloadedHeaders == CompressAll(redownloaded[|released|..])
      && redownloadBufferFirstPrevHash == TipHash(task, released)
      && redownloadBufferLastHash == TipHash(task, redownloaded)
      && redownloadBufferLastHeight == task.nHeight + |redownloaded|
      && redownloadChainWork == Work(task, redownloaded)
      && processAllRemainingHeaders == Reached(task, redownloaded)
      && headerCommitments == Commitments(task, presync)[BitsUsed(task, redownloaded)..]
    }

    /** Between two headers the buffer is empty only before the first one: the predecessor's
        difficulty is always at hand. */
    ghost predicate InRedownload()
      reads this
    {
      Buffered() && (redownloaded != [] ==> released != redownloaded)
    }

    /** What stays true of the released headers for ever. */
    ghost predicate ReleasedOk()
      reads this
    {
      released <= redownloaded && RedownloadAccepts(task, presync, redownloaded)
    }

    ghost predicate Valid()
      reads this
    {
      && task.hash == task.rules.hashOf(task.header) && task.commitOffset < HEADER_COMMITMENT_PERIOD
      && match downloadState
         case PRESYNC => InPresync()
         case REDOWNLOAD =>
           && InRedownload() && !Reached(task, redownloaded)
           && |released| == ReleasedCount(task, redownloaded)
         case FINAL => ReleasedOk() && |released| <= ReleasedCount(task, redownloaded)
    }

    lemma ValidMeans()
      requires Valid()
      ensures released <= redownloaded && RedownloadAccepts(task, presync, redownloaded)
      ensures |released| <= ReleasedCount(task, redownloaded) && task.commitOffset < HEADER_COMMITMENT_PERIOD
      ensures downloadState == REDOWNLOAD ==> |redownloadedHeaders| <= REDOWNLOAD_BUFFER_SIZE
      ensures downloadState != FINAL ==> |headerCommitments| <= task.maxCommitments
    {
    }

    lemma RedownloadMeans()
      requires Valid() && downloadState == REDOWNLOAD
      ensures presync != [] && Work(task, presync) >= task.minimumRequiredWork && !Reached(task, redownloaded)
    {
    }

    constructor (task: Task)
      requires task.hash == task.rules.hashOf(task.header) && task.commitOffset < HEADER_COMMITMENT_PERIOD
      ensures Valid() && this.task == task && downloadState == PRESYNC && presync == []
    {
      this.task := task;
      currentChainWork := task.nChainWork;
      headerCommitments := [];
      lastHeaderReceived := task.header;
      currentHeight := task.nHeight;
      redownloadedHeaders := [];
      redownloadBufferLastHeight, redownloadBufferLastHash, redownloadBufferFirstPrevHash := 0, 0, 0;
      redownloadChainWork := 0;
      processAllRemainingHeaders := false;
      downloadState := PRESYNC;
      presync, redownloaded, released := [], [], [];
    }

    method Finalize()
      modifies this
      ensures downloadState == FINAL
      ensures headerCommitments == [] && redownloadedHeaders == [] && !processAllRemainingHeaders
      ensures presync == old(presync) && redownloaded == old(redownloaded) && released == old(released)
    {
      headerCommitments := [];
      lastHeaderReceived := NULL_HEADER;
      redownloadedHeaders := [];
      redownloadBufferLastHash := 0;
      redownloadBufferFirstPrevHash := 0;
      processAllRemainingHeaders := false;
      currentHeight := 0;
      downloadState := FINAL;
    }

    method ValidateAndProcessSingleHeader(current: Header) returns (ok: bool)
      requires downloadState == PRESYNC && InPresync()
      modifies this
      ensures downloadState == PRESYNC && redownloaded == [] && released == []
      ensures ok <==> DifficultyOk(task, old(presync) + [current])
                      && |Commitments(task, old(presync) + [current])| <= task.maxCommitments
      ensures ok ==> InPresync() && presync == old(presync) + [current]
      ensures !ok ==> presync == old(presync)
    {
      hide Commitments, DifficultyOk, Work;
      PresyncOneMore(task, presync, current);
      var nextHeight := currentHeight + 1;
      if !task.rules.permitted(nextHeight, lastHeaderReceived.nBits, current.nBits) {
        return false;
      }
      if nextHeight % HEADER_COMMITMENT_PERIOD == task.commitOffset {
        headerCommitments := headerCommitments + [task.rules.commit(task.rules.hashOf(current))];
        if |headerCommitments| > task.maxCommitments {
          return false;
        }
      }
      currentChainWork := (currentChainWork + task.rules.proof(current.nBits)) % TWO_256;
      lastHeaderReceived := current;
      currentHeight := nextHeight;
      presync := presync + [current];
      return true;
    }

    /** The loop over the headers of a presync message. */
    method ProcessHeaders(headers: seq<Header>) returns (ok: bool)
      requires downloadState == PRESYNC && InPresync()
      modifies this
      ensures downloadState == PRESYNC && redownloaded == [] && released == []
      ensures ok <==> DifficultyOk(task, old(presync) + headers)
                      && |Commitments(task, old(presync) + headers)| <= task.maxCommitments
      ensures ok ==> InPresync() && presync == old(presync) + headers
      ensures old(presync) <= presync
    {
      ghost var start := presync;
      var i := 0;
      while i < |headers|
        invariant 0 <= i <= |headers|
        invariant downloadState == PRESYNC && InPresync() && presync == start + headers[..i]
      {
        NextOfMessage(task, [], start, headers, i);
        var accepted := ValidateAndProcessSingleHeader(headers[i]);
        if !accepted {
          return false;
        }
        i := i + 1;
      }
      assert headers[..i] == headers;
      return true;
    }

    /** Presync accepts a message exactly when it continues the last header, every difficulty
        change is permitted and the commitments stay within bounds; it moves on exactly when
        the accepted headers have the required work. */
    method ValidateAndStoreHeadersCommitments(headers: seq<Header>) returns (ok: bool)
      requires Valid() && downloadState == PRESYNC && headers != []
      modifies this
      ensures ok <==> PresyncAccepts(task, old(presync), headers)
      ensures ok ==> Valid() && presync == old(presync) + headers
      ensures ok ==> downloadState == if Work(task, presync) >= task.minimumRequiredWork then REDOWNLOAD else PRESYNC
      ensures old(presync) <= presync && redownloaded == [] && released == []
    {
      hide Commitments, DifficultyOk, Work, Reached, ReleasedCount;
      if headers[0].hashPrevBlock != task.rules.hashOf(lastHeaderReceived) {
        return false;
      }
      ok := ProcessHeaders(headers);
      if ok && currentChainWork >= task.minimumRequiredWork {
        StartRedownload();
      }
    }

    method StartRedownload()
      requires Valid() && downloadState == PRESYNC && presync != [] && Work(task, presync) >= task.minimumRequiredWork
      modifies this
      ensures Valid() && downloadState == REDOWNLOAD && presync == old(presync) && redownloaded == [] && released == []
    {
      redownloadedHeaders := [];
      redownloadBufferLastHeight := task.nHeight;
      redownloadBufferFirstPrevHash := task.hash;
      redownloadBufferLastHash := task.hash;
      redownloadChainWork := task.nChainWork;
      downloadState := REDOWNLOAD;
    }

    /** The comparison of one commitment bit. */
    method CheckCommitment(header: Header, nextHeight: int) returns (ok: bool)
      modifies this`headerCommitments
      ensures ok <==> processAllRemainingHeaders || BitOk(task, header, nextHeight, old(headerCommitments))
      ensures ok ==> headerCommitments == BitsAfter(task, processAllRemainingHeaders, nextHeight, old(headerCommitments))
    {
      if !processAllRemainingHeaders && nextHeight % HEADER_COMMITMENT_PERIOD == task.commitOffset {
        if headerCommitments == [] {
          return false;
        }
        var commitment := task.rules.commit(task.rules.hashOf(header));
        var expectedCommitment := headerCommitments[0];
        headerCommitments := headerCommitments[1..];
        if commitment != expectedCommitment {
          return false;
        }
      }
      return true;
    }

    /** The linkage and difficulty checks of a redownloaded header, against its true predecessor. */
    method CheckLink(header: Header, nextHeight: int) returns (ok: bool)
      requires InRedownload()
      ensures ok <==> && header.hashPrevBlock == TipHash(task, redownloaded)
                      && task.rules.permitted(nextHeight, TipBits(task, redownloaded), header.nBits)
    {
      if header.hashPrevBlock != redownloadBufferLastHash {
        return false;
      }
      var previousNBits := if redownloadedHeaders != [] then Last(redownloadedHeaders).nBits else task.header.nBits;
      assert previousNBits == TipBits(task, redownloaded);
      return task.rules.permitted(nextHeight, previousNBits, header.nBits);
    }

    /** Counts the work of a redownloaded header. */
    method AddWork(header: Header)
      requires InRedownload()
      modifies this`redownloadChainWork, this`processAllRemainingHeaders
      ensures redownloadChainWork == Work(task, redownloaded + [header])
      ensures processAllRemainingHeaders == Reached(task, redownloaded + [header])
    {
      hide Work, Reached, Linked, DifficultyOk, CommitmentsMatch, Commitments, BitsUsed, CompressAll, TipHash;
      StoreOneMore(task, redownloaded, released, header);
      redownloadChainWork := (redownloadChainWork + task.rules.proof(header.nBits)) % TWO_256;
      if redownloadChainWork >= task.minimumRequiredWork {
        processAllRemainingHeaders := true;
      }
    }

    /** The header passed every check and its work and bit are counted; it is not stored yet. */
    ghost predicate Judged(header: Header)
      reads this
    {
      var next := redownloaded + [header];
      && PresyncDone()
      && released <= redownloaded
      && RedownloadAccepts(task, presync, next)
      && redownloadedHeaders == CompressAll(redownloaded[|released|..])
      && redownloadBufferFirstPrevHash == TipHash(task, released)
      && redownloadChainWork == Work(task, next)
      && processAllRemainingHeaders == Reached(task, next)
      && headerCommitments == Commitments(task, presync)[BitsUsed(task, next)..]
    }

    /** The checks of one redownloaded header. */
    method JudgeHeader(header: Header, nextHeight: int) returns (ok: bool)
      requires InRedownload() && nextHeight == task.nHeight + |redownloaded| + 1
      modifies this`redownloadChainWork, this`processAllRemainingHeaders, this`headerCommitments
      ensures ok <==> RedownloadAccepts(task, presync, redownloaded + [header])
      ensures ok ==> Judged(header)
    {
      hide Work, Commitments, CompressAll, Linked, DifficultyOk, Reached, CommitmentsMatch, BitsUsed;
      AcceptOneMore(task, presync, redownloaded, header);
      ok := CheckLink(header, nextHeight);
      if ok {
        AddWork(header);
        ok := CheckCommitment(header, nextHeight);
      }
    }

    /** Stores a judged header. */
    method StoreHeader(header: Header, nextHeight: int)
      requires Judged(header) && nextHeight == task.nHeight + |redownloaded| + 1
      modifies this`redownloadedHeaders, this`redownloadBufferLastHeight, this`redownloadBufferLastHash, this`redownloaded
      ensures InRedownload() && redownloaded == old(redownloaded) + [header]
    {
      StoreOneMore(task, redownloaded, released, header);
      redownloadedHeaders := redownloadedHeaders + [Compress(header)];
      redownloadBufferLastHeight := nextHeight;
      redownloadBufferLastHash := task.rules.hashOf(header);
      redownloaded := redownloaded + [header];
    }

    /** One redownloaded header is stored exactly when it links to the last one, its difficulty
        change is permitted against it and its commitment bit matches. */
    method ValidateAndStoreRedownloadedHeader(header: Header) returns (ok: bool)
      requires downloadState == REDOWNLOAD && InRedownload()
      modifies this
      ensures downloadState == REDOWNLOAD && presync == old(presync) && released == old(released)
      ensures ok <==> RedownloadAccepts(task, presync, old(redownloaded) + [header])
      ensures ok ==> InRedownload() && redownloaded == old(redownloaded) + [header]
      ensures !ok ==> redownloaded == old(redownloaded)
      ensures ReleasedOk()
    {
      var nextHeight := redownloadBufferLastHeight + 1;
      ok := JudgeHeader(header, nextHeight);
      if ok {
        StoreHeader(header, nextHeight);
      }
    }

    /** Rebuilds and removes the oldest buffered header: it is the one that was compressed. */
    method PopFront() returns (header: Header)
      requires Buffered() && redownloadedHeaders != []
      modifies this`redownloadedHeaders, this`redownloadBufferFirstPrevHash, this`released
      ensures Buffered() && released == old(released) + [header]
      ensures |redownloadedHeaders| == |old(redownloadedHeaders)| - 1
    {
      PopOneMore(task, redownloaded, released);
      header := redownloadedHeaders[0].GetFullHeader(redownloadBufferFirstPrevHash);
      redownloadedHeaders := redownloadedHeaders[1..];
      redownloadBufferFirstPrevHash := task.rules.hashOf(header);
      released := released + [header];
    }

    /** Releases the oldest buffered headers, rebuilt in full, as far as the buffer size or the
        work reached allows. */
    method PopHeadersReadyForAcceptance() returns (ret: seq<Header>)
      requires downloadState == REDOWNLOAD && Buffered() && |released| <= ReleasedCount(task, redownloaded)
      modifies this`redownloadedHeaders, this`redownloadBufferFirstPrevHash, this`released
      ensures Buffered() && released == old(released) + ret && |released| == ReleasedCount(task, redownloaded)
    {
      ret := [];
      while |redownloadedHeaders| > REDOWNLOAD_BUFFER_SIZE || (|redownloadedHeaders| > 0 && processAllRemainingHeaders)
        invariant Buffered() && released == old(released) + ret && |released| <= ReleasedCount(task, redownloaded)
        decreases |redownloadedHeaders|
      {
        var header := PopFront();
        ret := ret + [header];
      }
    }

    /** The loop over the headers of a redownload message. */
    method StoreHeaders(headers: seq<Header>) returns (ok: bool)
      requires downloadState == REDOWNLOAD && InRedownload()
      modifies this
      ensures downloadState == REDOWNLOAD && presync == old(presync) && released == old(released)
      ensures ok <==> RedownloadAccepts(task, presync, old(redownloaded) + headers)
      ensures ok ==> InRedownload() && redownloaded == old(redownloaded) + headers
      ensures old(redownloaded) <= redownloaded && ReleasedOk()
    {
      assert ReleasedOk();
      hide RedownloadAccepts, Reached, Buffered, InRedownload, Extended;
      ghost var start := redownloaded;
      ExtendedEnds(start, headers);
      var i := 0;
      ok := true;
      while i < |headers| && ok
        invariant 0 <= i <= |headers|
        invariant downloadState == REDOWNLOAD && presync == old(presync) && released == old(released)
        invariant ok ==> InRedownload() && redownloaded == Extended(start, headers, i)
        invariant !ok ==> !RedownloadAccepts(task, presync, Extended(start, headers, |headers|))
        invariant start <= redownloaded && ReleasedOk()
      {
        ExtendedNext(task, presync, start, headers, i);
        ok := ValidateAndStoreRedownloadedHeader(headers[i]);
        i := i + 1;
      }
    }

    /** The redownload branch of `ProcessNextHeaders`. */
    method ProcessRedownload(headers: seq<Header>, fullHeadersMessage: bool) returns (ret: ProcessingResult)
      requires Valid() && downloadState == REDOWNLOAD && headers != []
      modifies this
      ensures downloadState == REDOWNLOAD && presync == old(presync)
      ensures ReleasedOk() && |released| <= ReleasedCount(task, redownloaded)
      ensures released == old(released) + ret.powValidatedHeaders
      ensures ret.success <==> RedownloadAccepts(task, presync, old(redownloaded) + headers)
      ensures old(redownloaded) <= redownloaded
      ensures ret.success ==> redownloaded == old(redownloaded) + headers && |released| == ReleasedCount(task, redownloaded)
      ensures !ret.success ==> ret.powValidatedHeaders == [] && !ret.requestMore
      ensures ret.success ==> (ret.requestMore <==> fullHeadersMessage && !Reached(task, redownloaded))
      ensures ret.requestMore ==> Valid()
    {
      ret := ProcessingResult([], false, false);
      var ok := StoreHeaders(headers);
      ReleaseMonotone(task, old(redownloaded), redownloaded);
      if !ok {
        return;
      }
      var ready := PopHeadersReadyForAcceptance();
      ret := ProcessingResult(ready, true, false);
      if redownloadedHeaders == [] && processAllRemainingHeaders {
        // complete
      } else if fullHeadersMessage {
        ret := ret.(requestMore := true);
      }
    }

    /** One message from the peer.  In either phase the verdict is exactly what the phase
        demands of all headers so far; the headers handed out extend the released ones; the
        sync goes on exactly while messages are accepted and full and, in redownload, the
        work has not been reached. */
    method ProcessNextHeaders(receivedHeaders: seq<Header>, fullHeadersMessage: bool) returns (ret: ProcessingResult)
      requires Valid()
      modifies this
      ensures Valid()
      ensures released == old(released) + ret.powValidatedHeaders
      ensures old(presync) <= presync && old(redownloaded) <= redownloaded
      ensures receivedHeaders == [] || old(downloadState) == FINAL ==>
                && ret == ProcessingResult([], false, false) && downloadState == old(downloadState)
                && presync == old(presync) && redownloaded == old(redownloaded)
      ensures receivedHeaders != [] && old(downloadState) == PRESYNC ==>
                && (ret.success <==> PresyncAccepts(task, old(presync), receivedHeaders))
                && (ret.success ==> presync == old(presync) + receivedHeaders)
                && redownloaded == []
                && downloadState == if !ret.success then FINAL
                                    else if Work(task, presync) >= task.minimumRequiredWork then REDOWNLOAD
                                    else if fullHeadersMessage then PRESYNC else FINAL
      ensures receivedHeaders != [] && old(downloadState) == REDOWNLOAD ==>
                && presync == old(presync)
                && (ret.success <==> RedownloadAccepts(task, presync, old(redownloaded) + receivedHeaders))
                && (ret.success ==> redownloaded == old(redownloaded) + receivedHeaders
                                    && |released| == ReleasedCount(task, redownloaded))
                && (!ret.success ==> ret.powValidatedHeaders == [])
                && downloadState == if ret.success && fullHeadersMessage && !Reached(task, redownloaded) then REDOWNLOAD else FINAL
      ensures receivedHeaders != [] && old(downloadState) != FINAL ==>
                (ret.success && ret.requestMore <==> downloadState != FINAL)
      ensures downloadState == FINAL && old(downloadState) != FINAL ==> headerCommitments == [] && redownloadedHeaders == []
    {
      ret := ProcessingResult([], false, false);
      if receivedHeaders == [] || downloadState == FINAL {
        return;
      }
      if downloadState == PRESYNC {
        var ok := ValidateAndStoreHeadersCommitments(receivedHeaders);
        ret := ProcessingResult([], ok, ok && (fullHeadersMessage || downloadState == REDOWNLOAD));
      } else {
        ret := ProcessRedownload(receivedHeaders, fullHeadersMessage);
      }
      if !(ret.success && ret.requestMore) {
        Finalize();
      }
    }
  }

  lemma ReleaseMonotone(task: Task, small: seq<Header>, large: seq<Header>)
    requires small <= large
    ensures ReleasedCount(task, small) <= ReleasedCount(task, large)
  {
    PrefixOk(task, large, |small|);
    assert large[..|small|] == small;
  }

  // ---------------------------------------------------------------- what vouches for a released header

  /** Number of commitment heights up to x, counted from a fixed origin. */
  function PeriodsBefore(task: Task, x: int): int {
    (x - task.commitOffset) / HEADER_COMMITMENT_PERIOD
  }

  lemma {:induction false} CommitmentCount(task: Task, headers: seq<Header>)
    requires task.commitOffset < HEADER_COMMITMENT_PERIOD
    ensures |Commitments(task, headers)| == PeriodsBefore(task, task.nHeight + |headers|) - PeriodsBefore(task, task.nHeight)
    decreases |headers|
  {
    hide PeriodsBefore, CommitHeight;
    if headers != [] {
      CommitmentCount(task, Front(headers));
      NextPeriod(task, task.nHeight + |headers|);
    }
  }

  lemma NextPeriod(task: Task, x: int)
    requires task.commitOffset < HEADER_COMMITMENT_PERIOD
    ensures PeriodsBefore(task, x) == PeriodsBefore(task, x - 1) + if CommitHeight(task, x) then 1 else 0
  {
  }

  /** The headers stored when a message had been dealt with. */
  datatype Moment = Moment(presync: seq<Header>, redownloaded: seq<Header>)

  /** The redownloaded headers have reached the work, or at least 13959 further ones follow this one, at
      least 23 of them with a commitment bit that was compared with presync and matched. */
  ghost predicate Vouched(task: Task, m: Moment, i: nat)
    requires i < |m.redownloaded|
  {
    Reached(task, m.redownloaded) ||
    (&& |m.redownloaded| - (i + 1) >= REDOWNLOAD_BUFFER_SIZE
     && |Commitments(task, m.redownloaded)| - |Commitments(task, m.redownloaded[..i + 1])| >= 23
     && Commitments(task, m.redownloaded) <= Commitments(task, m.presync))
  }

  /** A header is released only when it is vouched for. */
  lemma ReleasedIsVouchedFor(task: Task, presync: seq<Header>, redownloaded: seq<Header>, i: nat)
    requires task.commitOffset < HEADER_COMMITMENT_PERIOD
    requires RedownloadAccepts(task, presync, redownloaded) && i < ReleasedCount(task, redownloaded)
    ensures Vouched(task, Moment(presync, redownloaded), i)
  {
    if !Reached(task, redownloaded) {
      CommitmentCount(task, redownloaded);
      CommitmentCount(task, redownloaded[..i + 1]);
    }
  }

  // ---------------------------------------------------------------- whole runs

  datatype Message = Message(headers: seq<Header>, isFull: bool)

  ghost function Handed(results: seq<ProcessingResult>): seq<Header> {
    if results == [] then [] else Handed(Front(results)) + Last(results).powValidatedHeaders
  }

  /** Headers from one place on that a message released are vouched for at that moment. */
  ghost predicate ReleaseVouched(task: Task, before: nat, after: nat, m: Moment) {
    after <= |m.redownloaded| && forall i | before <= i < after :: Vouched(task, m, i)
  }

  /** What each message released was vouched for when it was released. */
  ghost predicate AllVouched(task: Task, results: seq<ProcessingResult>, moments: seq<Moment>) {
    && |moments| == |results|
    && forall k | 0 <= k < |results| ::
         ReleaseVouched(task, |Handed(results[..k])|, |Handed(results[..k + 1])|, moments[k])
  }

  /** What is stored only grows, up to what is stored at the end. */
  ghost predicate Grows(moments: seq<Moment>, last: seq<Header>) {
    && (forall k | 0 <= k < |moments| :: moments[k].redownloaded <= last)
    && (forall j, k | 0 <= j < k < |moments| :: moments[j].redownloaded <= moments[k].redownloaded)
  }

  lemma OneMoreVouched(task: Task, results: seq<ProcessingResult>, moments: seq<Moment>, result: ProcessingResult, m: Moment)
    requires AllVouched(task, results, moments)
    requires ReleaseVouched(task, |Handed(results)|, |Handed(results)| + |result.powValidatedHeaders|, m)
    ensures AllVouched(task, results + [result], moments + [m])
  {
    hide Vouched, ReleaseVouched, Handed;
    HandedOneMore(results, result);
    var next, nextMoments := results + [result], moments + [m];
    forall k | 0 <= k < |next|
      ensures ReleaseVouched(task, |Handed(next[..k])|, |Handed(next[..k + 1])|, nextMoments[k])
    {
      if k < |results| {
        assert next[..k] == results[..k] && next[..k + 1] == results[..k + 1];
      } else {
        assert next[..k] == results && next[..k + 1] == next;
      }
    }
  }

  /** One message: whatever it releases is vouched for by what is stored now. */
  method Receive(sync: HeadersSyncState, message: Message) returns (result: ProcessingResult)
    requires sync.Valid()
    modifies sync
    ensures sync.Valid() && sync.released == old(sync.released) + result.powValidatedHeaders
    ensures old(sync.redownloaded) <= sync.redownloaded
    ensures ReleaseVouched(sync.task, |old(sync.released)|, |sync.released|, Moment(sync.presync, sync.redownloaded))
  {
    hide Vouched, RedownloadAccepts, HeadersSyncState.Valid, ReleasedCount, Reached;
    result := sync.ProcessNextHeaders(message.headers, message.isFull);
    sync.ValidMeans();
    forall i | |old(sync.released)| <= i < |sync.released| ensures Vouched(sync.task, Moment(sync.presync, sync.redownloaded), i) {
      ReleasedIsVouchedFor(sync.task, sync.presync, sync.redownloaded, i);
    }
  }

  /** Whatever a peer sends, in either phase and in any batches: the headers handed out over
      the whole run are, in order and rebuilt in full, a prefix of the redownloaded headers;
      these link back to the start block, change difficulty as permitted and agree with the
      presync commitments; each is vouched for when it is handed out; and memory stays bounded. */
  method RunSync(sync: HeadersSyncState, messages: seq<Message>) returns (results: seq<ProcessingResult>, ghost moments: seq<Moment>)
    requires sync.Valid() && sync.downloadState == PRESYNC
    modifies sync
    ensures sync.Valid() && |results| == |messages|
    ensures Handed(results) == sync.released && sync.released <= sync.redownloaded
    ensures RedownloadAccepts(sync.task, sync.presync, sync.redownloaded)
    ensures sync.downloadState == REDOWNLOAD ==> |sync.redownloadedHeaders| <= REDOWNLOAD_BUFFER_SIZE
    ensures sync.downloadState != FINAL ==> |sync.headerCommitments| <= sync.task.maxCommitments
    ensures AllVouched(sync.task, results, moments) && Grows(moments, sync.redownloaded)
  {
    hide Vouched, ReleaseVouched, AllVouched, Handed, RedownloadAccepts, HeadersSyncState.Valid;
    results, moments := [], [];
    NothingHanded(sync.task);
    ghost var none: seq<Header> := [];
    assert sync.released == none by { FreshSync(sync); }
    while |results| < |messages|
      invariant |results| <= |messages| && sync.Valid() && Handed(results) == sync.released
      invariant AllVouched(sync.task, results, moments) && Grows(moments, sync.redownloaded)
    {
      var result := Receive(sync, messages[|results|]);
      HandedOneMore(results, result);
      OneMoreVouched(sync.task, results, moments, result, Moment(sync.presync, sync.redownloaded));
      results, moments := results + [result], moments + [Moment(sync.presync, sync.redownloaded)];
    }
    sync.ValidMeans();
  }

  lemma FreshSync(sync: HeadersSyncState)
    requires sync.Valid() && sync.downloadState == PRESYNC
    ensures sync.released == []
  {
  }

  lemma NothingHanded(task: Task)
    ensures Handed([]) == [] && AllVouched(task, [], [])
  {
  }

  // ---------------------------------------------------------------- an honest peer

  ghost function Concat(messages: seq<seq<Header>>): seq<Header> {
    if messages == [] then [] else Concat(Front(messages)) + Last(messages)
  }

  /** Replaying the accepted presync headers, if they are linked, passes every check. */
  lemma ReplayAccepted(task: Task, presync: seq<Header>, n: nat)
    requires n <= |presync| && Linked(task, presync) && DifficultyOk(task, presync)
    ensures RedownloadAccepts(task, presync, presync[..n])
  {
    PrefixOk(task, presync, n);
    var compared := Compared(task, presync[..n]);
    assert compared == presync[..|compared|];
    PrefixOk(task, presync, |compared|);
  }

  lemma {:induction false} ConcatPrefix(messages: seq<seq<Header>>, k: nat)
    requires k <= |messages|
    ensures Concat(messages[..k]) <= Concat(messages)
    decreases |messages|
  {
    if k < |messages| {
      ConcatPrefix(Front(messages), k);
      assert Front(messages)[..k] == messages[..k];
    } else {
      assert messages[..k] == messages;
    }
  }

  lemma HandedOneMore(results: seq<ProcessingResult>, result: ProcessingResult)
    ensures Handed(results + [result]) == Handed(results) + result.powValidatedHeaders
  {
    assert Front(results + [result]) == results;
  }

  lemma NothingYet(task: Task)
    ensures Concat([]) == [] && Handed([]) == [] && !Reached(task, [])
  {
  }

  /** While the work is not reached, messages are left. */
  lemma NextMessage(task: Task, messages: seq<seq<Header>>, k: nat)
    requires k <= |messages| && Concat(messages) != []
    requires Work(task, Concat(messages)) >= task.minimumRequiredWork && !Reached(task, Concat(messages[..k]))
    ensures k < |messages| && Concat(messages[..k + 1]) == Concat(messages[..k]) + messages[k] <= Concat(messages)
  {
    assert messages[..|messages|] == messages;
    assert Front(messages[..k + 1]) == messages[..k];
    ConcatPrefix(messages, k + 1);
  }

  /** One message of a replay. */
  method ReplayMessage(sync: HeadersSyncState, message: seq<Header>) returns (result: ProcessingResult)
    requires sync.Valid() && sync.downloadState == REDOWNLOAD && message != []
    requires Linked(sync.task, sync.presync) && sync.redownloaded + message <= sync.presync
    modifies sync
    ensures sync.Valid() && result.success && sync.presync == old(sync.presync)
    ensures sync.redownloaded == old(sync.redownloaded) + message
    ensures sync.released == old(sync.released) + result.powValidatedHeaders
    ensures sync.downloadState == if Reached(sync.task, sync.redownloaded) then FINAL else REDOWNLOAD
    ensures sync.downloadState == FINAL ==> sync.released == sync.redownloaded
  {
    ghost var after := sync.redownloaded + message;
    ReplayAccepted(sync.task, sync.presync, |after|);
    assert sync.presync[..|after|] == after;
    result := sync.ProcessNextHeaders(message, true);
  }

  /** A peer that replays exactly the headers accepted in presync, linked, cut into any
      non-empty full messages: no check fails, and the message that reaches the work releases
      everything redownloaded so far and ends the sync. */
  method Replay(sync: HeadersSyncState, messages: seq<seq<Header>>) returns (results: seq<ProcessingResult>)
    requires sync.Valid() && sync.downloadState == REDOWNLOAD && sync.redownloaded == []
    requires Linked(sync.task, sync.presync) && Concat(messages) == sync.presync
    requires forall k | 0 <= k < |messages| :: messages[k] != []
    modifies sync
    ensures 0 < |results| <= |messages| && sync.downloadState == FINAL
    ensures forall k | 0 <= k < |results| :: results[k].success
    ensures Reached(sync.task, Concat(messages[..|results|]))
    ensures !Reached(sync.task, Concat(messages[..|results| - 1]))
    ensures Handed(results) == Concat(messages[..|results|])
  {
    hide Concat, Handed, Reached, Linked, Work, HeadersSyncState.Valid;
    results := [];
    var finished := false;
    assert messages[..0] == [] && sync.released == [] by { sync.ValidMeans(); }
    NothingYet(sync.task);
    while !finished
      invariant |results| <= |messages| && sync.Valid() && sync.presync == old(sync.presync)
      invariant finished ==> 0 < |results|
      invariant sync.downloadState == if finished then FINAL else REDOWNLOAD
      invariant sync.redownloaded == Concat(messages[..|results|]) && Handed(results) == sync.released
      invariant forall k | 0 <= k < |results| :: results[k].success
      invariant finished <==> Reached(sync.task, sync.redownloaded)
      invariant finished ==> sync.released == sync.redownloaded && !Reached(sync.task, Concat(messages[..|results| - 1]))
      decreases |messages| - |results|
    {
      var k := |results|;
      sync.RedownloadMeans();
      NextMessage(sync.task, messages, k);
      var result := ReplayMessage(sync, messages[k]);
      HandedOneMore(results, result);
      results := results + [result];
      finished := sync.downloadState == FINAL;
    }
  }
}
