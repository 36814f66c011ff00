/** The encoded values that travel through the four proof stages. As in SCALE, decoding reads a
    prefix and ignores what follows. */
module Codec {
  import opened Hashing

  type Byte = x: nat | x < 256

  function Words(bytes: seq<Byte>): (b: Blob)
    ensures |b| == |bytes| && forall i :: 0 <= i < |bytes| ==> b[i] == Word(bytes[i])
  {
    seq(|bytes|, i requires 0 <= i < |bytes| => Word(bytes[i]))
  }

  /** A 32-byte hash encodes as itself. */
  function EncodeHash(h: H256): Blob {
    [Digest(h)]
  }

  // ---------------------------------------------------------------- Beefy MMR leaf

  datatype BeefyLeaf = BeefyLeaf(
    version: nat, parentNumber: nat, parentHash: H256,
    nextSetId: nat, nextSetSize: nat, nextSetCommitment: H256, leafExtra: H256)

  function EncodeBeefyLeaf(l: BeefyLeaf): Blob {
    [Word(l.version), Word(l.parentNumber), Digest(l.parentHash),
     Word(l.nextSetId), Word(l.nextSetSize), Digest(l.nextSetCommitment), Digest(l.leafExtra)]
  }

  function DecodeBeefyLeaf(b: Blob): Option<BeefyLeaf> {
    if |b| >= 7 && b[0].Word? && b[1].Word? && b[2].Digest? && b[3].Word? && b[4].Word?
       && b[5].Digest? && b[6].Digest?
    then Some(BeefyLeaf(b[0].value, b[1].value, b[2].hash, b[3].value, b[4].value, b[5].hash, b[6].hash))
    else None
  }

  lemma BeefyLeafRoundTrip(l: BeefyLeaf)
    ensures DecodeBeefyLeaf(EncodeBeefyLeaf(l)) == Some(l)
  {
  }

  /** A string decodes to a Beefy leaf exactly when it begins with the encoding of that leaf. */
  lemma DecodeBeefyLeafIff(b: Blob, l: BeefyLeaf)
    ensures DecodeBeefyLeaf(b) == Some(l) <==> EncodeBeefyLeaf(l) <= b
  {
    if EncodeBeefyLeaf(l) <= b {
      assert forall i :: 0 <= i < 7 ==> b[i] == EncodeBeefyLeaf(l)[i];
    }
  }

  // ---------------------------------------------------------------- para head leaf

  datatype ParaLeaf = ParaLeaf(paraId: nat, headData: Blob)

  function EncodeParaLeaf(l: ParaLeaf): (b: Blob)
    ensures !IsPair(b)
  {
    [Word(l.paraId), Word(|l.headData|)] + l.headData
  }

  lemma EncodeParaLeafInjective(a: ParaLeaf, b: ParaLeaf)
    requires EncodeParaLeaf(a) == EncodeParaLeaf(b)
    ensures a == b
  {
    var x, y := EncodeParaLeaf(a), EncodeParaLeaf(b);
    assert x[0] == Word(a.paraId) && y[0] == Word(b.paraId);
    assert x[2..] == a.headData && y[2..] == b.headData;
  }

  // ---------------------------------------------------------------- block header

  datatype Log = Log(engine: nat, payload: Blob)

  datatype Header = Header(
    parentHash: H256, number: nat, stateRoot: H256, extrinsicsRoot: H256, digest: seq<Log>)

  /** The engine id of the log that carries the channel root. */
  const XCMR_ENGINE: nat := 0x58434d52

  function EncodeLog(l: Log): Blob {
    [Word(l.engine), Word(|l.payload|)] + l.payload
  }

  function EncodeLogs(logs: seq<Log>): Blob {
    if logs == [] then [] else EncodeLog(logs[0]) + EncodeLogs(logs[1..])
  }

  function DecodeLogs(count: nat, b: Blob): Option<seq<Log>> {
    if count == 0 then Some([])
    else if |b| >= 2 && b[0].Word? && b[1].Word? && b[1].value <= |b| - 2 then
      var size := b[1].value;
      var rest := DecodeLogs(count - 1, b[2 + size..]);
      if rest.None? then None else Some([Log(b[0].value, b[2..2 + size])] + rest.value)
    else None
  }

  function EncodeHeader(h: Header): Blob {
    [Digest(h.parentHash), Word(h.number), Digest(h.stateRoot), Digest(h.extrinsicsRoot), Word(|h.digest|)]
    + EncodeLogs(h.digest)
  }

  function DecodeHeader(b: Blob): Option<Header> {
    if |b| >= 5 && b[0].Digest? && b[1].Word? && b[2].Digest? && b[3].Digest? && b[4].Word? then
      var logs := DecodeLogs(b[4].value, b[5..]);
      if logs.None? then None
      else Some(Header(b[0].hash, b[1].value, b[2].hash, b[3].hash, logs.value))
    else None
  }

  /** The first log that carries a channel root. */
  function ExtractChannelRoot(digest: seq<Log>): Option<H256> {
    if digest == [] then None
    else if digest[0].engine == XCMR_ENGINE && digest[0].payload != [] && digest[0].payload[0].Digest? then
      Some(digest[0].payload[0].hash)
    else ExtractChannelRoot(digest[1..])
  }

  /** The log has the engine id of the channel root and `root` at the front of its payload. */
  predicate Carries(l: Log, root: H256) {
    l.engine == 0x58434d52 && l.payload != [] && l.payload[0] == Digest(root)
  }

  /** Log `k` is the first one to carry any root, and it carries `root`. */
  ghost predicate CarriesFirst(digest: seq<Log>, k: nat, root: H256) {
    k < |digest| && Carries(digest[k], root) && forall i, r :: 0 <= i < k ==> !Carries(digest[i], r)
  }

  /** The extracted root is the one in the first log that carries a root, wherever that log stands. */
  lemma {:induction false} ExtractsFirstRoot(digest: seq<Log>, root: H256)
    ensures ExtractChannelRoot(digest) == Some(root) <==> exists k: nat :: CarriesFirst(digest, k, root)
    decreases |digest|
  {
    if digest != [] {
      ExtractsFirstRoot(digest[1..], root);
      if exists r :: Carries(digest[0], r) {
        assert ExtractChannelRoot(digest) == Some(root) ==> CarriesFirst(digest, 0, root);
      } else {
        var l := digest[0];
        assert l.payload != [] && l.payload[0].Digest? ==> !Carries(l, l.payload[0].hash);
        FirstRootShifts(digest, root);
      }
    }
  }

  lemma FirstRootShifts(digest: seq<Log>, root: H256)
    requires digest != [] && forall r :: !Carries(digest[0], r)
    ensures (exists k: nat :: CarriesFirst(digest, k, root)) <==> exists k: nat :: CarriesFirst(digest[1..], k, root)
  {
    if k: nat :| CarriesFirst(digest, k, root) {
      assert CarriesFirst(digest[1..], k - 1, root);
    }
    if k: nat :| CarriesFirst(digest[1..], k, root) {
      assert CarriesFirst(digest, k + 1, root);
    }
  }

  lemma DecodeFirstLog(log: Log, tail: Blob, count: nat, b: Blob)
    requires b == EncodeLog(log) + tail && DecodeLogs(count, tail).Some?
    ensures DecodeLogs(count + 1, b) == Some([log] + DecodeLogs(count, tail).value)
  {
    var size := |log.payload|;
    assert b[0] == Word(log.engine) && b[1] == Word(size);
    assert b[2..2 + size] == log.payload && b[2 + size..] == tail;
  }

  lemma {:induction false} LogsRoundTrip(logs: seq<Log>, rest: Blob, b: Blob)
    requires b == EncodeLogs(logs) + rest
    ensures DecodeLogs(|logs|, b) == Some(logs)
    decreases |logs|
  {
    if logs != [] {
      var (log, others) := (logs[0], logs[1..]);
      var tail := EncodeLogs(others) + rest;
      LogsRoundTrip(others, rest, tail);
      assert b == EncodeLog(log) + tail;
      DecodeFirstLog(log, tail, |others|, b);
      assert [log] + others == logs;
    }
  }

  lemma {:induction false} DecodedLogsArePrefix(count: nat, b: Blob)
    ensures var logs := DecodeLogs(count, b); logs.Some? ==> |logs.value| == count && EncodeLogs(logs.value) <= b
  {
    if count > 0 && DecodeLogs(count, b).Some? {
      var size := b[1].value;
      DecodedLogsArePrefix(count - 1, b[2 + size..]);
      var log, rest := Log(b[0].value, b[2..2 + size]), DecodeLogs(count - 1, b[2 + size..]).value;
      assert EncodeLog(log) == b[..2 + size];
      assert ([log] + rest)[1..] == rest;
    }
  }

  lemma DecodedHeaderIsPrefix(b: Blob, h: Header)
    requires DecodeHeader(b) == Some(h)
    ensures EncodeHeader(h) <= b
  {
    DecodedLogsArePrefix(b[4].value, b[5..]);
    assert EncodeHeader(h)[..5] == b[..5];
  }

  lemma PrefixDecodes(b: Blob, h: Header, rest: Blob)
    requires b == EncodeHeader(h) + rest
    ensures DecodeHeader(b) == Some(h)
  {
    assert b[..5] == EncodeHeader(h)[..5];
    assert b[0] == b[..5][0] && b[1] == b[..5][1] && b[2] == b[..5][2] && b[3] == b[..5][3] && b[4] == b[..5][4];
    assert b[5..] == EncodeLogs(h.digest) + rest;
    LogsRoundTrip(h.digest, rest, b[5..]);
  }

  lemma HeaderRoundTrip(h: Header)
    ensures DecodeHeader(EncodeHeader(h)) == Some(h)
  {
    PrefixDecodes(EncodeHeader(h), h, []);
  }

  /** A string decodes to a header exactly when it begins with the encoding of that header. */
  lemma DecodeHeaderIff(b: Blob, h: Header)
    ensures DecodeHeader(b) == Some(h) <==> EncodeHeader(h) <= b
  {
    if DecodeHeader(b) == Some(h) {
      DecodedHeaderIsPrefix(b, h);
    }
    if EncodeHeader(h) <= b {
      PrefixDecodes(b, h, b[|EncodeHeader(h)|..]);
    }
  }

  // ---------------------------------------------------------------- message leaf

  datatype MessageLeaf = MessageLeaf(messages: seq<Byte>, version: nat, parentNumber: nat, parentHash: H256)

  function EncodeMessageLeaf(l: MessageLeaf): (b: Blob)
    ensures !IsPair(b)
  {
    [Word(|l.messages|)] + Words(l.messages) + [Word(l.version), Word(l.parentNumber), Digest(l.parentHash)]
  }

  /** An encoded message leaf determines the messages and the parent block it carries. */
  lemma EncodeMessageLeafInjective(a: MessageLeaf, b: MessageLeaf)
    requires EncodeMessageLeaf(a) == EncodeMessageLeaf(b)
    ensures a == b
  {
    var x, y := EncodeMessageLeaf(a), EncodeMessageLeaf(b);
    assert x[0] == Word(|a.messages|) && y[0] == Word(|b.messages|);
    var n := |a.messages|;
    forall i | 0 <= i < n
      ensures a.messages[i] == b.messages[i]
    {
      assert x[1 + i] == Word(a.messages[i]) && y[1 + i] == Word(b.messages[i]);
    }
    assert x[n + 1] == Word(a.version) && x[n + 2] == Word(a.parentNumber) && x[n + 3] == Digest(a.parentHash);
    assert y[n + 1] == Word(b.version) && y[n + 2] == Word(b.parentNumber) && y[n + 3] == Digest(b.parentHash);
  }
}
