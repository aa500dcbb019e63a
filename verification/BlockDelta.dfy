/** Block deltas: a file is sent as the blocks its last manifest does not list, and the peer lays
    them over the file it has. */
module BlockDelta {

  type Bytes = seq<bv8>
  type Digest = Bytes -> string

  const MAX_FILE := 16 * 1024 * 1024 * 1024
  const MAX_BLOCK := 64 * 1024 * 1024
  const MAX_BLOCKS := 65536

  datatype Signature = Signature(offset: nat, size: nat, digest: string)

  /** The signed part of a transaction. */
  datatype Instruction = Instruction(size: nat, digest: string, blocks: seq<Signature>)

  /** What is uploaded: the instruction and the block files, named by their offsets. */
  datatype Transaction = Transaction(instruction: Instruction, files: map<nat, Bytes>)

  datatype Outcome = Applied(file: Bytes) | LimitsExceeded | BadBounds | BadBlock | BadFile

  ghost predicate Injective(digest: Digest) {
    forall a, b :: digest(a) == digest(b) ==> a == b
  }

  // ----- Signatures -----

  function Shorter(n: nat, m: nat): nat {
    if n < m then n else m
  }

  /** What one read of a block returns. */
  function Chunk(file: Bytes, block: nat, at: nat): (r: Bytes)
    requires at <= |file|
    ensures |r| == Shorter(block, |file| - at)
  {
    file[at..at + Shorter(block, |file| - at)]
  }

  function SignatureAt(digest: Digest, file: Bytes, block: nat, at: nat): Signature
    requires at <= |file|
  {
    Signature(at, Shorter(block, |file| - at), digest(Chunk(file, block, at)))
  }

  function SignaturesFrom(digest: Digest, file: Bytes, block: nat, at: nat): seq<Signature>
    requires block > 0
    decreases |file| - at
  {
    if at >= |file| then []
    else [SignatureAt(digest, file, block, at)] + SignaturesFrom(digest, file, block, at + Shorter(block, |file| - at))
  }

  function BlockSize(asked: int): (r: nat)
    ensures r >= 65536 && r >= asked && (r == 65536 || r == asked)
  {
    if asked < 64 * 1024 then 64 * 1024 else asked
  }

  method Signatures(digest: Digest, file: Bytes, block: nat) returns (signatures: seq<Signature>)
    requires block > 0
    ensures signatures == SignaturesFrom(digest, file, block, 0)
  {
    signatures := [];
    var offset := 0;
    var chunk := Chunk(file, block, 0);
    while chunk != []
      invariant 0 <= offset <= |file| && chunk == Chunk(file, block, offset)
      invariant signatures + SignaturesFrom(digest, file, block, offset) == SignaturesFrom(digest, file, block, 0)
      decreases |file| - offset
    {
      ghost var rest := SignaturesFrom(digest, file, block, offset + |chunk|);
      assert signatures + ([SignatureAt(digest, file, block, offset)] + rest) ==
          (signatures + [SignatureAt(digest, file, block, offset)]) + rest;
      signatures := signatures + [Signature(offset, |chunk|, digest(chunk))];
      offset := offset + |chunk|;
      chunk := Chunk(file, block, offset);
    }
    assert offset == |file|;
  }

  /** The signature speaks of the bytes of the file. */
  predicate Describes(digest: Digest, file: Bytes, s: Signature) {
    && s.offset + s.size <= |file| && s.size > 0
    && s.digest == digest(file[s.offset..s.offset + s.size])
  }

  predicate Covers(s: Signature, k: nat) {
    s.offset <= k < s.offset + s.size
  }

  predicate Covered(signatures: seq<Signature>, k: nat) {
    exists s <- signatures :: Covers(s, k)
  }

  lemma {:induction false} ByteCovered(digest: Digest, file: Bytes, block: nat, at: nat, k: nat)
    requires block > 0 && at <= k < |file|
    ensures Covered(SignaturesFrom(digest, file, block, at), k)
    decreases |file| - at
  {
    var first := SignatureAt(digest, file, block, at);
    var next := at + first.size;
    var all, rest := SignaturesFrom(digest, file, block, at), SignaturesFrom(digest, file, block, next);
    assert all == [first] + rest;
    if k < next {
      assert first in all && Covers(first, k);
    } else {
      ByteCovered(digest, file, block, next, k);
      var s :| s in rest && Covers(s, k);
      assert s in all;
    }
  }

  /** Signatures describe the file, are no larger than a block, and every byte has exactly one. */
  lemma {:induction false} SignaturesTile(digest: Digest, file: Bytes, block: nat, at: nat)
    requires block > 0
    ensures var all := SignaturesFrom(digest, file, block, at);
            && (forall s <- all :: Describes(digest, file, s) && s.offset >= at && s.size <= block)
            && (forall k: nat :: at <= k < |file| ==> Covered(all, k))
            && (forall i, j, k: nat :: 0 <= i < j < |all| ==> !(Covers(all[i], k) && Covers(all[j], k)))
    decreases |file| - at
  {
    if at < |file| {
      var first := SignatureAt(digest, file, block, at);
      var next := at + first.size;
      SignaturesTile(digest, file, block, next);
      var all, rest := SignaturesFrom(digest, file, block, at), SignaturesFrom(digest, file, block, next);
      assert all == [first] + rest;
      forall k: nat | at <= k < |file| ensures Covered(all, k) { ByteCovered(digest, file, block, at, k); }
      forall i, j, k: nat | 0 <= i < j < |all| ensures !(Covers(all[i], k) && Covers(all[j], k)) {
        assert all[j] == rest[j-1] && rest[j-1] in rest;
        if i > 0 { assert all[i] == rest[i-1]; }
      }
    }
  }

  // ----- Changed blocks -----

  /** The local signatures that the remote ones do not list. */
  function Changed(local: seq<Signature>, remote: seq<Signature>): (r: seq<Signature>)
    ensures forall s :: s in r <==> s in local && s !in remote
  {
    if local == [] then []
    else (if local[0] in remote then [] else [local[0]]) + Changed(local[1..], remote)
  }

  function TransferredBytes(changed: seq<Signature>): nat {
    if changed == [] then 0 else changed[0].size + TransferredBytes(changed[1..])
  }

  lemma {:induction false} TotalSize(digest: Digest, file: Bytes, block: nat, at: nat)
    requires block > 0 && at <= |file|
    ensures TransferredBytes(SignaturesFrom(digest, file, block, at)) == |file| - at
    decreases |file| - at
  {
    if at < |file| {
      TotalSize(digest, file, block, at + Shorter(block, |file| - at));
    }
  }

  /** The earlier file has the same whole block there. */
  predicate SameBlock(file: Bytes, base: Bytes, block: nat, s: Signature)
    requires s.offset + s.size <= |file|
  {
    && s.offset + s.size <= |base| && base[s.offset..s.offset + s.size] == file[s.offset..s.offset + s.size]
    && (s.size == block || s.offset + s.size == |base|)
  }

  /** A signature is the first one, or a later one behind a whole block. */
  lemma SignatureSplit(digest: Digest, file: Bytes, block: nat, at: nat, s: Signature)
    requires block > 0 && s in SignaturesFrom(digest, file, block, at)
    ensures at < |file|
    ensures s == SignatureAt(digest, file, block, at) || s in SignaturesFrom(digest, file, block, at + block)
  {
    var next := at + Shorter(block, |file| - at);
    assert SignaturesFrom(digest, file, block, at) ==
        [SignatureAt(digest, file, block, at)] + SignaturesFrom(digest, file, block, next);
    if next < at + block { assert SignaturesFrom(digest, file, block, next) == []; }
  }

  /** A block goes unsent exactly when the earlier file has the same whole block there. */
  lemma {:induction false} UnsentMeans(digest: Digest, file: Bytes, base: Bytes, block: nat, at: nat, s: Signature)
    requires block > 0 && Injective(digest) && s in SignaturesFrom(digest, file, block, at)
    ensures s.offset >= at && s.offset + s.size <= |file| && s.size > 0
    ensures s in SignaturesFrom(digest, base, block, at) <==> SameBlock(file, base, block, s)
    decreases |file| - at
  {
    SignatureSplit(digest, file, block, at, s);
    if s == SignatureAt(digest, file, block, at) {
      HeadSignature(digest, base, block, at, s);
      SameHead(digest, file, base, block, at);
    } else {
      UnsentMeans(digest, file, base, block, at + block, s);
      LaterSignature(digest, base, block, at, s);
    }
  }

  lemma SameHead(digest: Digest, file: Bytes, base: Bytes, block: nat, at: nat)
    requires block > 0 && Injective(digest) && at < |file|
    ensures at < |base| && SignatureAt(digest, file, block, at) == SignatureAt(digest, base, block, at)
            <==> SameBlock(file, base, block, SignatureAt(digest, file, block, at))
  {
  }

  /** A signature beyond the first block is among the rest, or not at all. */
  lemma LaterSignature(digest: Digest, base: Bytes, block: nat, at: nat, s: Signature)
    requires block > 0 && s.offset >= at + block && s.size > 0
    ensures s in SignaturesFrom(digest, base, block, at) <==> s in SignaturesFrom(digest, base, block, at + block)
  {
    if at < |base| {
      var next := at + Shorter(block, |base| - at);
      assert SignaturesFrom(digest, base, block, at) ==
          [SignatureAt(digest, base, block, at)] + SignaturesFrom(digest, base, block, next);
    }
  }

  /** The one signature with the first offset is the first one. */
  lemma HeadSignature(digest: Digest, base: Bytes, block: nat, at: nat, s: Signature)
    requires block > 0 && s.offset == at
    ensures s in SignaturesFrom(digest, base, block, at) <==> at < |base| && s == SignatureAt(digest, base, block, at)
  {
    if at < |base| {
      var next := at + Shorter(block, |base| - at);
      SignaturesAscend(digest, base, block, next);
      AscendingBeyond(SignaturesFrom(digest, base, block, next), next);
    }
  }

  // ----- Sending -----

  /** Blocks in the order of their offsets, none inside another. */
  predicate Ascending(signatures: seq<Signature>, from: nat) {
    signatures != [] ==>
      signatures[0].offset >= from && signatures[0].size > 0
          && Ascending(signatures[1..], signatures[0].offset + signatures[0].size)
  }

  lemma {:induction false} SignaturesAscend(digest: Digest, file: Bytes, block: nat, at: nat)
    requires block > 0
    ensures Ascending(SignaturesFrom(digest, file, block, at), at)
    decreases |file| - at
  {
    if at < |file| { SignaturesAscend(digest, file, block, at + Shorter(block, |file| - at)); }
  }

  lemma {:induction false} ChangedAscend(local: seq<Signature>, remote: seq<Signature>, from: nat, lower: nat)
    requires Ascending(local, from) && lower <= from
    ensures Ascending(Changed(local, remote), lower)
  {
    if local != [] {
      var next := local[0].offset + local[0].size;
      ChangedAscend(local[1..], remote, next, if local[0] in remote then lower else next);
      if local[0] in remote {
        assert Changed(local, remote) == Changed(local[1..], remote);
      } else {
        assert Changed(local, remote)[1..] == Changed(local[1..], remote);
      }
    }
  }

  lemma {:induction false} AscendingBeyond(signatures: seq<Signature>, from: nat)
    requires Ascending(signatures, from)
    ensures forall s <- signatures :: s.offset >= from
  {
    if signatures != [] { AscendingBeyond(signatures[1..], signatures[0].offset + signatures[0].size); }
  }

  ghost function Range(a: nat, b: nat): (r: set<nat>)
    requires a <= b
    ensures |r| == b - a && forall k: nat :: k in r <==> a <= k < b
    decreases b - a
  {
    if a == b then {} else {a} + Range(a + 1, b)
  }

  lemma CoveredHead(blocks: seq<Signature>, k: nat)
    requires blocks != []
    ensures Covered(blocks, k) <==> Covers(blocks[0], k) || Covered(blocks[1..], k)
  {
    if Covers(blocks[0], k) { assert blocks[0] in blocks; }
    if Covered(blocks[1..], k) {
      var u :| u in blocks[1..] && Covers(u, k);
      assert u in blocks;
    }
  }

  ghost function CoveredBytes(blocks: seq<Signature>, size: nat): set<nat> {
    set k: nat | k < size && Covered(blocks, k)
  }

  lemma CoveredBytesHead(blocks: seq<Signature>, size: nat)
    requires blocks != [] && blocks[0].offset + blocks[0].size <= size
    ensures CoveredBytes(blocks, size) ==
            Range(blocks[0].offset, blocks[0].offset + blocks[0].size) + CoveredBytes(blocks[1..], size)
  {
    forall k: nat | k < size ensures Covered(blocks, k) <==> Covers(blocks[0], k) || Covered(blocks[1..], k) {
      CoveredHead(blocks, k);
    }
  }

  /** The transferred bytes are counted exactly: each byte of a block once. */
  lemma {:induction false} TransferCounts(blocks: seq<Signature>, from: nat, size: nat)
    requires Ascending(blocks, from) && forall s <- blocks :: s.offset + s.size <= size
    ensures |CoveredBytes(blocks, size)| == TransferredBytes(blocks)
  {
    if blocks == [] {
      assert CoveredBytes(blocks, size) == {};
    } else {
      var end := blocks[0].offset + blocks[0].size;
      TransferCounts(blocks[1..], end, size);
      AscendingBeyond(blocks[1..], end);
      CoveredBytesHead(blocks, size);
      assert Range(blocks[0].offset, end) !! CoveredBytes(blocks[1..], size);
    }
  }

  predicate AllDescribe(digest: Digest, file: Bytes, signatures: seq<Signature>) {
    forall s <- signatures :: Describes(digest, file, s)
  }

  /** The files hold the source's bytes of the block. */
  ghost predicate Holds(source: Bytes, files: map<nat, Bytes>, s: Signature) {
    s.offset + s.size <= |source| && s.offset in files && files[s.offset] == source[s.offset..s.offset + s.size]
  }

  /** The files hold the first n blocks and nothing else. */
  ghost predicate HoldsFirst(source: Bytes, files: map<nat, Bytes>, blocks: seq<Signature>, n: nat)
    requires n <= |blocks|
  {
    && (forall j :: 0 <= j < n ==> Holds(source, files, blocks[j]))
    && (forall o <- files :: exists j :: 0 <= j < n && blocks[j].offset == o)
  }

  lemma HoldsOneMore(source: Bytes, files: map<nat, Bytes>, blocks: seq<Signature>, n: nat, files': map<nat, Bytes>)
    requires n < |blocks| && blocks[n].offset + blocks[n].size <= |source|
             && Ascending(blocks, 0) && HoldsFirst(source, files, blocks, n)
    requires files' == files[blocks[n].offset := source[blocks[n].offset..blocks[n].offset + blocks[n].size]]
    ensures HoldsFirst(source, files', blocks, n + 1)
  {
    forall j | 0 <= j < n ensures Holds(source, files', blocks[j]) {
      assert Holds(source, files, blocks[j]);
      AscendingApart(blocks, 0, j, n);
      assert files'[blocks[j].offset] == files[blocks[j].offset];
    }
    assert Holds(source, files', blocks[n]);
    forall o <- files' ensures exists j :: 0 <= j < n + 1 && blocks[j].offset == o {
      if o != blocks[n].offset { assert o in files; }
    }
  }

  /** The block files that are uploaded. */
  method WriteBlocks(digest: Digest, source: Bytes, blocks: seq<Signature>) returns (files: map<nat, Bytes>)
    requires AllDescribe(digest, source, blocks) && Ascending(blocks, 0)
    ensures forall s <- blocks :: Holds(source, files, s)
    ensures forall o <- files :: exists s <- blocks :: s.offset == o
  {
    files := map[];
    for i := 0 to |blocks|
      invariant HoldsFirst(source, files, blocks, i)
    {
      assert Describes(digest, source, blocks[i]);
      ghost var before := files;
      files := files[blocks[i].offset := source[blocks[i].offset..blocks[i].offset + blocks[i].size]];
      HoldsOneMore(source, before, blocks, i, files);
    }
  }

  lemma {:induction false} AscendingApart(signatures: seq<Signature>, from: nat, i: nat, j: nat)
    requires Ascending(signatures, from) && i < j < |signatures|
    ensures signatures[i].offset < signatures[j].offset
  {
    var next := signatures[0].offset + signatures[0].size;
    if i > 0 {
      AscendingApart(signatures[1..], next, i - 1, j - 1);
    } else {
      AscendingBeyond(signatures[1..], next);
      assert signatures[j] in signatures[1..];
    }
  }

  /** The transaction is what the sender makes of the source and its last manifest. */
  ghost predicate Sends(blockDigest: Digest, fileDigest: Digest, source: Bytes, block: nat, previous: seq<Signature>,
      t: Transaction)
    requires block > 0
  {
    var blocks := Changed(SignaturesFrom(blockDigest, source, block, 0), previous);
    && t.instruction == Instruction(|source|, fileDigest(source), blocks)
    && (forall s <- blocks :: Holds(source, t.files, s))
    && (forall o <- t.files :: exists s <- blocks :: s.offset == o)
  }

  method Prepare(blockDigest: Digest, fileDigest: Digest, source: Bytes, asked: int, previous: seq<Signature>)
    returns (t: Transaction, manifest: seq<Signature>)
    ensures Sends(blockDigest, fileDigest, source, BlockSize(asked), previous, t)
    ensures manifest == SignaturesFrom(blockDigest, source, BlockSize(asked), 0)
  {
    var block := BlockSize(asked);
    manifest := Signatures(blockDigest, source, block);
    var blocks := Changed(manifest, previous);
    SignaturesTile(blockDigest, source, block, 0);
    SignaturesAscend(blockDigest, source, block, 0);
    ChangedAscend(manifest, previous, 0, 0);
    var files := WriteBlocks(blockDigest, source, blocks);
    t := Transaction(Instruction(|source|, fileDigest(source), blocks), files);
  }

  // ----- Receiving -----

  /** A file as if zeros followed it. */
  function At(file: Bytes, k: nat): bv8 {
    if k < |file| then file[k] else 0
  }

  /** seek and write: a gap is filled with zeros. */
  function WriteAt(file: Bytes, offset: nat, content: Bytes): Bytes {
    if content == [] then file
    else seq(if |file| < offset + |content| then offset + |content| else |file|,
             k requires k >= 0 => if offset <= k < offset + |content| then content[k - offset] else At(file, k))
  }

  lemma WrittenByte(file: Bytes, offset: nat, content: Bytes, k: nat)
    ensures At(WriteAt(file, offset, content), k) ==
            if offset <= k < offset + |content| then content[k - offset] else At(file, k)
  {
  }

  function Truncate(file: Bytes, size: nat): Bytes {
    seq(size, k requires k >= 0 => At(file, k))
  }

  function CheckBlock(digest: Digest, s: Signature, files: map<nat, Bytes>, size: nat): Outcome {
    if s.size > MAX_BLOCK || s.offset + s.size > size then BadBounds
    else if s.offset !in files || |files[s.offset]| != s.size || digest(files[s.offset]) != s.digest then BadBlock
    else Applied(files[s.offset])
  }

  /** The blocks laid over the file, up to the first bad one. */
  function Overlay(digest: Digest, file: Bytes, blocks: seq<Signature>, files: map<nat, Bytes>, size: nat): Outcome
    decreases |blocks|
  {
    if blocks == [] then Applied(file)
    else
      match CheckBlock(digest, blocks[0], files, size)
      case Applied(content) => Overlay(digest, WriteAt(file, blocks[0].offset, content), blocks[1..], files, size)
      case bad => bad
  }

  function Receive(blockDigest: Digest, fileDigest: Digest, base: Bytes, t: Transaction): Outcome {
    var i := t.instruction;
    if i.size > MAX_FILE || |i.blocks| > MAX_BLOCKS then LimitsExceeded
    else
      match Overlay(blockDigest, base, i.blocks, t.files, i.size)
      case Applied(file) => if fileDigest(Truncate(file, i.size)) == i.digest then Applied(Truncate(file, i.size))
        else BadFile
      case bad => bad
  }

  method ApplyDelta(blockDigest: Digest, fileDigest: Digest, base: Bytes, t: Transaction) returns (outcome: Outcome)
    ensures outcome == Receive(blockDigest, fileDigest, base, t)
  {
    var i := t.instruction;
    if i.size > MAX_FILE || |i.blocks| > MAX_BLOCKS { return LimitsExceeded; }
    var file := base;
    for j := 0 to |i.blocks|
      invariant Overlay(blockDigest, base, i.blocks, t.files, i.size) ==
                Overlay(blockDigest, file, i.blocks[j..], t.files, i.size)
    {
      assert i.blocks[j..][0] == i.blocks[j] && i.blocks[j..][1..] == i.blocks[j+1..];
      var checked := CheckBlock(blockDigest, i.blocks[j], t.files, i.size);
      if !checked.Applied? { return checked; }
      file := WriteAt(file, i.blocks[j].offset, checked.file);
    }
    file := Truncate(file, i.size);
    return if fileDigest(file) == i.digest then Applied(file) else BadFile;
  }

  // ----- Reconstruction -----

  /** Whatever base and blocks the peer has, it only ever installs the very file that was signed. */
  lemma InstallsOnlyTheSource(blockDigest: Digest, fileDigest: Digest, source: Bytes, block: nat,
      previous: seq<Signature>, base: Bytes, t: Transaction, files: map<nat, Bytes>)
    requires block > 0 && Injective(fileDigest) && Sends(blockDigest, fileDigest, source, block, previous, t)
    ensures var outcome := Receive(blockDigest, fileDigest, base, t.(files := files));
            outcome.Applied? ==> outcome.file == source
  {
  }

  lemma {:induction false} OverlayBytes(digest: Digest, source: Bytes, base: Bytes, blocks: seq<Signature>,
      files: map<nat, Bytes>)
    requires AllDescribe(digest, source, blocks)
    requires forall s <- blocks :: Holds(source, files, s) && s.size <= MAX_BLOCK
    ensures var r := Overlay(digest, base, blocks, files, |source|);
            r.Applied? && forall k: nat :: k < |source| ==>
                At(r.file, k) == if Covered(blocks, k) then source[k] else At(base, k)
    decreases |blocks|
  {
    if blocks != [] {
      var s, rest := blocks[0], blocks[1..];
      assert Describes(digest, source, s) && Holds(source, files, s);
      var next := WriteAt(base, s.offset, files[s.offset]);
      OverlayBytes(digest, source, next, rest, files);
      forall k: nat | k < |source| ensures At(next, k) == if Covers(s, k) then source[k] else At(base, k) {
        WrittenByte(base, s.offset, files[s.offset], k);
      }
      forall k: nat | k < |source| ensures Covered(blocks, k) <==> Covers(s, k) || Covered(rest, k) {
        CoveredHead(blocks, k);
      }
    }
  }

  /** The peer's file has the source's bytes, or zeros beyond its end, wherever no block was sent. */
  ghost predicate AgreesUnsent(source: Bytes, base: Bytes, blocks: seq<Signature>) {
    forall k: nat :: k < |source| && !Covered(blocks, k) ==> At(base, k) == source[k]
  }

  predicate WithinLimits(source: Bytes, blocks: seq<Signature>) {
    |source| <= MAX_FILE && |blocks| <= MAX_BLOCKS && forall s <- blocks :: s.size <= MAX_BLOCK
  }

  /** A delta is installed exactly when the limits permit it and the peer's file agrees with the
      source wherever nothing was sent. */
  lemma ReconstructsExactly(blockDigest: Digest, fileDigest: Digest, source: Bytes, block: nat,
      previous: seq<Signature>, base: Bytes, t: Transaction)
    requires block > 0 && Injective(fileDigest) && Sends(blockDigest, fileDigest, source, block, previous, t)
    ensures Receive(blockDigest, fileDigest, base, t) == Applied(source) <==>
            WithinLimits(source, t.instruction.blocks) && AgreesUnsent(source, base, t.instruction.blocks)
  {
    var blocks := t.instruction.blocks;
    SignaturesTile(blockDigest, source, block, 0);
    if WithinLimits(source, blocks) {
      OverlayBytes(blockDigest, source, base, blocks, t.files);
      var file := Truncate(Overlay(blockDigest, base, blocks, t.files, |source|).file, |source|);
      if AgreesUnsent(source, base, blocks) {
        assert file == source;
      } else {
        var k: nat :| k < |source| && !Covered(blocks, k) && At(base, k) != source[k];
        assert file[k] != source[k];
      }
    } else if |source| <= MAX_FILE && |blocks| <= MAX_BLOCKS {
      BigBlock(blockDigest, base, blocks, t.files, |source|);
    }
  }

  lemma {:induction false} BigBlock(digest: Digest, base: Bytes, blocks: seq<Signature>, files: map<nat, Bytes>,
      size: nat)
    requires exists s <- blocks :: s.size > MAX_BLOCK
    ensures !Overlay(digest, base, blocks, files, size).Applied?
    decreases |blocks|
  {
    var checked := CheckBlock(digest, blocks[0], files, size);
    if checked.Applied? {
      BigBlock(digest, WriteAt(base, blocks[0].offset, checked.file), blocks[1..], files, size);
    }
  }

  /** A manifest of the peer's own file makes the delta fit. */
  lemma ManifestFits(digest: Digest, source: Bytes, base: Bytes, block: nat)
    requires block > 0 && Injective(digest)
    ensures AgreesUnsent(source, base,
            Changed(SignaturesFrom(digest, source, block, 0), SignaturesFrom(digest, base, block, 0)))
  {
    var local, remote := SignaturesFrom(digest, source, block, 0), SignaturesFrom(digest, base, block, 0);
    forall k: nat | k < |source| && !Covered(Changed(local, remote), k) ensures At(base, k) == source[k] {
      ByteCovered(digest, source, block, 0, k);
      var s :| s in local && Covers(s, k);
      assert s in remote;
      UnsentByte(digest, source, base, block, s, k);
    }
  }

  lemma UnsentByte(digest: Digest, source: Bytes, base: Bytes, block: nat, s: Signature, k: nat)
    requires block > 0 && Injective(digest) && Covers(s, k)
    requires s in SignaturesFrom(digest, source, block, 0) && s in SignaturesFrom(digest, base, block, 0)
    ensures k < |source| && k < |base| && base[k] == source[k]
  {
    UnsentMeans(digest, source, base, block, 0, s);
    SameByte(source, base, block, s, k);
  }

  lemma SameByte(source: Bytes, base: Bytes, block: nat, s: Signature, k: nat)
    requires s.offset + s.size <= |source| && SameBlock(source, base, block, s) && Covers(s, k)
    ensures k < |base| && base[k] == source[k]
  {
    assert base[s.offset..s.offset + s.size][k - s.offset] == source[s.offset..s.offset + s.size][k - s.offset];
  }

  /** Without a manifest everything is sent, so any peer file will do. */
  lemma NoManifestFits(digest: Digest, source: Bytes, base: Bytes, block: nat)
    requires block > 0
    ensures AgreesUnsent(source, base, Changed(SignaturesFrom(digest, source, block, 0), []))
  {
    var local := SignaturesFrom(digest, source, block, 0);
    forall k: nat | k < |source| ensures Covered(Changed(local, []), k) {
      ByteCovered(digest, source, block, 0, k);
      var s :| s in local && Covers(s, k);
      assert s in Changed(local, []);
    }
  }

  // ----- A sender and a peer over many transfers -----

  /** A transaction at the peer; source is the file its sender signed. */
  datatype Parcel = Parcel(source: Bytes, t: Transaction)

  /** What the sender last recorded, the peer's file, and the transactions in the peer's directory. */
  datatype Link = Link(manifest: seq<Signature>, target: Bytes, pending: map<nat, Parcel>)

  datatype Exchange =
    | Upload(id: nat, source: Bytes, t: Transaction,
             arrived: bool,     // the instruction lies in the peer's directory
             reported: bool)    // the sender was told that every upload succeeded
    | Damage(id: nat, files: map<nat, Bytes>)
    | Inspect(id: nat,          // the peer looks at one transaction, in any order
              cleaned: bool)    // an applied transaction could be removed
    | FullTransfer(source: Bytes)
    | PeerEdit(source: Bytes)

  /** The digests and the block size in use. */
  datatype Planner = Planner(blockDigest: Digest, fileDigest: Digest, block: nat)

  ghost predicate Sound(p: Planner) {
    p.block > 0 && Injective(p.blockDigest) && Injective(p.fileDigest)
  }

  function ManifestOf(p: Planner, file: Bytes): seq<Signature>
    requires p.block > 0
  {
    SignaturesFrom(p.blockDigest, file, p.block, 0)
  }

  ghost predicate Possible(p: Planner, l: Link, x: Exchange)
    requires Sound(p)
  {
    match x
    case Upload(id, source, t, arrived, reported) =>
      Sends(p.blockDigest, p.fileDigest, source, p.block, l.manifest, t) && id !in l.pending && (reported ==> arrived)
    case Damage(id, _) => id in l.pending
    case Inspect(id, _) => id in l.pending
    case FullTransfer(_) => true
    case PeerEdit(_) => true
  }

  function Received(p: Planner, base: Bytes, parcel: Parcel): Outcome {
    Receive(p.blockDigest, p.fileDigest, base, parcel.t)
  }

  /** A refused transaction stays where it is; only an upload that succeeded renews the manifest. */
  function Exchanged(p: Planner, l: Link, x: Exchange): Link
    requires p.block > 0
  {
    match x
    case Upload(id, source, t, arrived, reported) =>
      l.(manifest := if reported then ManifestOf(p, source) else l.manifest,
         pending := if arrived then l.pending[id := Parcel(source, t)] else l.pending)
    case Damage(id, files) =>
      if id in l.pending then
        l.(pending := l.pending[id := Parcel(l.pending[id].source, l.pending[id].t.(files := files))])
      else l
    case Inspect(id, cleaned) =>
      if id !in l.pending then l
      else
        var outcome := Received(p, l.target, l.pending[id]);
        if outcome.Applied? then
          l.(target := outcome.file, pending := if cleaned then l.pending - {id} else l.pending)
        else l
    case FullTransfer(source) => l.(target := source)
    case PeerEdit(source) => l.(target := source)
  }

  ghost predicate PossibleRun(p: Planner, l: Link, run: seq<Exchange>)
    requires Sound(p)
    decreases |run|
  {
    run != [] ==> Possible(p, l, run[0]) && PossibleRun(p, Exchanged(p, l, run[0]), run[1..])
  }

  function AfterRun(p: Planner, l: Link, run: seq<Exchange>): Link
    requires p.block > 0
    decreases |run|
  {
    if run == [] then l else AfterRun(p, Exchanged(p, l, run[0]), run[1..])
  }

  lemma RunFirst(p: Planner, l: Link, x: Exchange, rest: seq<Exchange>)
    requires Sound(p) && Possible(p, l, x) && PossibleRun(p, Exchanged(p, l, x), rest)
    ensures PossibleRun(p, l, [x] + rest) && AfterRun(p, l, [x] + rest) == AfterRun(p, Exchanged(p, l, x), rest)
  {
    assert ([x] + rest)[1..] == rest;
  }

  // ----- Only whole versions -----

  ghost predicate Signed(p: Planner, parcel: Parcel) {
    parcel.t.instruction.digest == p.fileDigest(parcel.source)
  }

  /** Whatever block files and base the peer has, a signed transaction installs its source or nothing. */
  lemma SignedInstallsSource(p: Planner, base: Bytes, parcel: Parcel)
    requires Sound(p) && Signed(p, parcel)
    ensures Received(p, base, parcel).Applied? ==> Received(p, base, parcel).file == parcel.source
  {
  }

  /** The file comes from the sender's or the peer's side of an exchange. */
  predicate Brings(x: Exchange, file: Bytes) {
    (x.Upload? || x.FullTransfer? || x.PeerEdit?) && x.source == file
  }

  ghost predicate Known(l: Link, run: seq<Exchange>, file: Bytes) {
    file == l.target || (exists id <- l.pending :: l.pending[id].source == file) || (exists x <- run :: Brings(x, file))
  }

  lemma KnownBefore(p: Planner, l: Link, x: Exchange, rest: seq<Exchange>, file: Bytes)
    requires Sound(p) && Possible(p, l, x) && Known(Exchanged(p, l, x), rest, file)
    requires forall id <- l.pending :: Signed(p, l.pending[id])
    ensures Known(l, [x] + rest, file)
  {
    var l' := Exchanged(p, l, x);
    assert forall y :: y in rest ==> y in [x] + rest;
    assert x in [x] + rest;
    if x.Inspect? { SignedInstallsSource(p, l.target, l.pending[x.id]); }
    if file != l'.target && exists id <- l'.pending :: l'.pending[id].source == file {
      var id :| id in l'.pending && l'.pending[id].source == file;
      assert id in l.pending ==> l.pending[id].source == file || Brings(x, file);
    }
  }

  /** Whatever is lost, damaged, reordered or retried, the peer's file is always some whole version:
      the first one, one that was sent, or the peer's own. */
  lemma {:induction false} OnlyWholeVersions(p: Planner, l: Link, run: seq<Exchange>)
    requires Sound(p) && PossibleRun(p, l, run)
    requires forall id <- l.pending :: Signed(p, l.pending[id])
    ensures Known(l, run, AfterRun(p, l, run).target)
    decreases |run|
  {
    if run != [] {
      assert run == [run[0]] + run[1..];
      OnlyWholeVersions(p, Exchanged(p, l, run[0]), run[1..]);
      KnownBefore(p, l, run[0], run[1..], AfterRun(p, l, run).target);
    }
  }

  // ----- When the last upload wins -----

  /** The parcel is what its sender made of the source and some manifest, undamaged. */
  ghost predicate Intact(p: Planner, parcel: Parcel)
    requires p.block > 0
  {
    exists previous :: Sends(p.blockDigest, p.fileDigest, parcel.source, p.block, previous, parcel.t)
  }

  /** Within the limits, and the base agrees with the source wherever nothing was sent. */
  ghost predicate Fits(parcel: Parcel, base: Bytes) {
    WithinLimits(parcel.source, parcel.t.instruction.blocks)
        && AgreesUnsent(parcel.source, base, parcel.t.instruction.blocks)
  }

  lemma FitsExactly(p: Planner, parcel: Parcel, base: Bytes)
    requires Sound(p) && Intact(p, parcel)
    ensures Received(p, base, parcel).Applied? <==> Fits(parcel, base)
    ensures Fits(parcel, base) ==> Received(p, base, parcel) == Applied(parcel.source)
  {
    var previous :| Sends(p.blockDigest, p.fileDigest, parcel.source, p.block, previous, parcel.t);
    ReconstructsExactly(p.blockDigest, p.fileDigest, parcel.source, p.block, previous, base, parcel.t);
    SignedInstallsSource(p, base, parcel);
  }

  predicate Inspections(run: seq<Exchange>) {
    forall x <- run :: x.Inspect?
  }

  ghost predicate AllIntact(p: Planner, l: Link)
    requires p.block > 0
  {
    forall id <- l.pending :: Intact(p, l.pending[id])
  }

  /** No pending transaction would replace this content by another one. */
  ghost predicate Unchallenged(l: Link, file: Bytes) {
    forall id <- l.pending :: l.pending[id].source == file || !Fits(l.pending[id], file)
  }

  lemma {:induction false} UnchallengedStays(p: Planner, l: Link, run: seq<Exchange>, file: Bytes)
    requires Sound(p) && AllIntact(p, l) && l.target == file && Unchallenged(l, file)
    requires Inspections(run) && PossibleRun(p, l, run)
    ensures AfterRun(p, l, run).target == file
    decreases |run|
  {
    if run != [] {
      assert run[0] in run;
      var parcel := l.pending[run[0].id];
      FitsExactly(p, parcel, file);
      assert forall x :: x in run[1..] ==> x in run;
      UnchallengedStays(p, Exchanged(p, l, run[0]), run[1..], file);
    }
  }

  /** The peer's file keeps this content under every further order of inspections. */
  ghost predicate Lasts(p: Planner, l: Link, file: Bytes)
    requires Sound(p)
  {
    forall run :: Inspections(run) && PossibleRun(p, l, run) ==> AfterRun(p, l, run).target == file
  }

  /** An installed version lasts, whatever the order of inspections, if and only if no pending
      transaction with another content fits it. */
  lemma LastsExactly(p: Planner, l: Link)
    requires Sound(p) && AllIntact(p, l)
    ensures Lasts(p, l, l.target) <==> Unchallenged(l, l.target)
  {
    if Unchallenged(l, l.target) {
      forall run | Inspections(run) && PossibleRun(p, l, run) ensures AfterRun(p, l, run).target == l.target {
        UnchallengedStays(p, l, run, l.target);
      }
    } else {
      var id :| id in l.pending && l.pending[id].source != l.target && Fits(l.pending[id], l.target);
      FitsExactly(p, l.pending[id], l.target);
      var x := Inspect(id, true);
      RunFirst(p, l, x, []);
      assert Inspections([x] + []) && AfterRun(p, l, [x] + []).target == l.pending[id].source;
    }
  }

  lemma {:induction false} InspectionsOnlyRemove(p: Planner, l: Link, run: seq<Exchange>)
    requires Sound(p) && Inspections(run) && PossibleRun(p, l, run)
    ensures forall id <- AfterRun(p, l, run).pending ::
            id in l.pending && AfterRun(p, l, run).pending[id] == l.pending[id]
    decreases |run|
  {
    if run != [] {
      assert run[0] in run;
      assert forall x :: x in run[1..] ==> x in run;
      InspectionsOnlyRemove(p, Exchanged(p, l, run[0]), run[1..]);
    }
  }

  /** Inspections lead to a state in which the transaction is installed, and its content lasts. */
  ghost predicate WinsAfter(p: Planner, l: Link, id: nat, run: seq<Exchange>)
    requires Sound(p) && id in l.pending
  {
    var l' := AfterRun(p, l, run);
    Inspections(run) && PossibleRun(p, l, run) && id in l'.pending && Fits(l.pending[id], l'.target) ==>
      Lasts(p, Exchanged(p, l', Inspect(id, true)), l.pending[id].source)
  }

  lemma InstalledLasts(p: Planner, l: Link, id: nat)
    requires Sound(p) && AllIntact(p, l) && id in l.pending && Fits(l.pending[id], l.target)
    ensures Lasts(p, Exchanged(p, l, Inspect(id, true)), l.pending[id].source) <==>
            Unchallenged(l, l.pending[id].source)
  {
    var l' := Exchanged(p, l, Inspect(id, true));
    FitsExactly(p, l.pending[id], l.target);
    assert l'.target == l.pending[id].source && l'.pending == l.pending - {id};
    LastsExactly(p, l');
    assert forall m <- l.pending :: m == id || (m in l'.pending && l'.pending[m] == l.pending[m]);
  }

  /** The last upload wins, whatever the order of inspections and whenever it is its turn, if and only
      if no other pending transaction with another content fits it. */
  lemma LastUploadWins(p: Planner, l: Link, id: nat)
    requires Sound(p) && AllIntact(p, l) && id in l.pending && Fits(l.pending[id], l.target)
    ensures (forall run :: WinsAfter(p, l, id, run)) <==> Unchallenged(l, l.pending[id].source)
  {
    var source := l.pending[id].source;
    if Unchallenged(l, source) {
      forall run ensures WinsAfter(p, l, id, run) {
        var l' := AfterRun(p, l, run);
        if Inspections(run) && PossibleRun(p, l, run) && id in l'.pending && Fits(l.pending[id], l'.target) {
          InspectionsOnlyRemove(p, l, run);
          InstalledLasts(p, l', id);
        }
      }
    } else {
      assert !WinsAfter(p, l, id, []) by { InstalledLasts(p, l, id); }
    }
  }

  /** A transaction that was refused comes back once something it fits is in its place. */
  lemma RefusedReturns(p: Planner, l: Link, id: nat, newer: Bytes)
    requires Sound(p) && id in l.pending && Intact(p, l.pending[id]) && l.pending[id].source != newer
    ensures var run := [FullTransfer(newer)] + ([Inspect(id, true)] + []);
            && PossibleRun(p, l, run)
            && (AfterRun(p, l, run).target == l.pending[id].source <==> Fits(l.pending[id], newer))
            && (AfterRun(p, l, run).target == newer <==> !Fits(l.pending[id], newer))
  {
    var l1 := Exchanged(p, l, FullTransfer(newer));
    RunFirst(p, l1, Inspect(id, true), []);
    RunFirst(p, l, FullTransfer(newer), [Inspect(id, true)] + []);
    FitsExactly(p, l.pending[id], newer);
  }

  // ----- One delta at a time -----

  /** The manifest is empty or that of the peer's file. */
  ghost predicate InStep(p: Planner, l: Link)
    requires p.block > 0
  {
    l.manifest == [] || l.manifest == ManifestOf(p, l.target)
  }

  /** Deltas are uploaded only into an empty directory, arrive as reported and are within the limits;
      nothing is damaged, what was applied is removed, and nobody else writes the file. */
  predicate OneAtATime(l: Link, x: Exchange) {
    match x
    case Upload(_, source, t, arrived, reported) => l.pending == map[] && arrived == reported
      && WithinLimits(source, t.instruction.blocks)
    case Damage(_, _) => false
    case Inspect(_, cleaned) => cleaned
    case FullTransfer(_) => false
    case PeerEdit(_) => false
  }

  ghost predicate Disciplined(p: Planner, l: Link, run: seq<Exchange>)
    requires p.block > 0
    decreases |run|
  {
    run != [] ==> OneAtATime(l, run[0]) && Disciplined(p, Exchanged(p, l, run[0]), run[1..])
  }

  function LastUploaded(run: seq<Exchange>, first: Bytes): Bytes {
    if run == [] then first
    else LastUploaded(run[1..], if run[0].Upload? && run[0].reported then run[0].source else first)
  }

  /** The peer has the last upload, or it lies alone in the directory and fits the peer's file. */
  ghost predicate OnTrack(p: Planner, l: Link, last: Bytes)
    requires p.block > 0
  {
    || (l.pending == map[] && l.target == last && InStep(p, l))
    || (l.manifest == ManifestOf(p, last)
        && exists id <- l.pending :: l.pending == map[id := l.pending[id]] && l.pending[id].source == last
                                     && Received(p, l.target, l.pending[id]) == Applied(last))
  }

  lemma UploadOnTrack(p: Planner, l: Link, x: Exchange)
    requires Sound(p) && Possible(p, l, x) && x.Upload? && OneAtATime(l, x) && InStep(p, l)
    ensures x.reported ==> OnTrack(p, Exchanged(p, l, x), x.source)
  {
    ReconstructsExactly(p.blockDigest, p.fileDigest, x.source, p.block, l.manifest, l.target, x.t);
    if l.manifest == [] {
      NoManifestFits(p.blockDigest, x.source, l.target, p.block);
    } else {
      ManifestFits(p.blockDigest, x.source, l.target, p.block);
    }
    var parcel := Parcel(x.source, x.t);
    assert Received(p, l.target, parcel) == Applied(x.source);
    if x.reported { assert Exchanged(p, l, x).pending == map[x.id := parcel] && x.id in Exchanged(p, l, x).pending; }
  }

  lemma InspectOnTrack(p: Planner, l: Link, x: Exchange, last: Bytes)
    requires Sound(p) && Possible(p, l, x) && x.Inspect? && x.cleaned && OnTrack(p, l, last)
    ensures Exchanged(p, l, x) == Link(ManifestOf(p, last), last, map[])
  {
    assert l.pending == map[x.id := l.pending[x.id]] && l.pending - {x.id} == map[];
  }

  /** With one delta at a time, the peer has exactly what was uploaded last as soon as its directory
      is empty, and the next inspection gets it there. */
  lemma {:induction false} DeltasFollow(p: Planner, l: Link, run: seq<Exchange>, last: Bytes)
    requires Sound(p) && PossibleRun(p, l, run) && Disciplined(p, l, run) && OnTrack(p, l, last)
    ensures OnTrack(p, AfterRun(p, l, run), LastUploaded(run, last))
    decreases |run|
  {
    if run != [] {
      var x := run[0];
      var now := if x.Upload? && x.reported then x.source else last;
      if x.Upload? {
        UploadOnTrack(p, l, x);
      } else {
        InspectOnTrack(p, l, x, last);
      }
      DeltasFollow(p, Exchanged(p, l, x), run[1..], now);
    }
  }

  // ----- What goes wrong otherwise -----

  /** The transaction of a one-byte source against a manifest that lists another byte. */
  ghost function OneByte(p: Planner, b: bv8): Transaction
    requires p.block > 0
  {
    Transaction(Instruction(1, p.fileDigest([b]), ManifestOf(p, [b])), map[0 := [b]])
  }

  lemma OneSignature(p: Planner, b: bv8)
    requires p.block > 0
    ensures ManifestOf(p, [b]) == [SignatureAt(p.blockDigest, [b], p.block, 0)]
  {
    assert SignaturesFrom(p.blockDigest, [b], p.block, 1) == [];
  }

  lemma OneByteSent(p: Planner, old': bv8, b: bv8)
    requires Sound(p) && old' != b
    ensures Sends(p.blockDigest, p.fileDigest, [b], p.block, ManifestOf(p, [old']), OneByte(p, b))
    ensures WithinLimits([b], OneByte(p, b).instruction.blocks)
    ensures forall base :: Received(p, base, Parcel([b], OneByte(p, b))) == Applied([b])
  {
    OneSignature(p, b);
    OneSignature(p, old');
    var s, s' := SignatureAt(p.blockDigest, [b], p.block, 0), SignatureAt(p.blockDigest, [old'], p.block, 0);
    assert Chunk([b], p.block, 0) == [b] && Chunk([old'], p.block, 0) == [old'] && [b] != [old'];
    assert Changed([s], [s']) == [s] by { assert [s][1..] == []; }
    assert Holds([b], map[0 := [b]], s);
    forall base ensures Received(p, base, Parcel([b], OneByte(p, b))) == Applied([b]) {
      assert Covered([s], 0) by { assert s in [s] && Covers(s, 0); }
      ReconstructsExactly(p.blockDigest, p.fileDigest, [b], p.block, [s'], base, OneByte(p, b));
    }
  }

  /** Two deltas in the directory, inspected in the other order: the peer ends with the older one. */
  lemma OlderDeltaWins(p: Planner)
    requires Sound(p)
    ensures var run := [Upload(1, [2], OneByte(p, 2), true, true)] + ([Upload(2, [3], OneByte(p, 3), true, true)] +
                       ([Inspect(2, true)] + ([Inspect(1, true)] + [])));
            var l := Link(ManifestOf(p, [1]), [1], map[]);
            && PossibleRun(p, l, run) && LastUploaded(run, [1]) == [3]
            && AfterRun(p, l, run) == Link(ManifestOf(p, [3]), [2], map[])
  {
    var l := Link(ManifestOf(p, [1]), [1], map[]);
    var a, b, c, d := Upload(1, [2], OneByte(p, 2), true, true), Upload(2, [3], OneByte(p, 3), true, true),
        Inspect(2, true), Inspect(1, true);
    OneByteSent(p, 1, 2);
    OneByteSent(p, 2, 3);
    var l1 := Exchanged(p, l, a);
    var l2 := Exchanged(p, l1, b);
    var l3 := Exchanged(p, l2, c);
    assert l3 == Link(ManifestOf(p, [3]), [3], map[1 := Parcel([2], OneByte(p, 2))]);
    var l4 := Exchanged(p, l3, d);
    assert l4 == Link(ManifestOf(p, [3]), [2], map[]);
    var rest4 := [d] + [];
    var rest3 := [c] + rest4;
    var rest2 := [b] + rest3;
    var run := [a] + rest2;
    RunFirst(p, l3, d, []);
    RunFirst(p, l2, c, rest4);
    RunFirst(p, l1, b, rest3);
    RunFirst(p, l, a, rest2);
    assert rest4[1..] == [] && LastUploaded(rest4, [3]) == [3];
    assert rest3[1..] == rest4 && LastUploaded(rest3, [3]) == [3];
    assert rest2[1..] == rest3 && LastUploaded(rest2, [2]) == [3];
    assert run[1..] == rest2;
  }

  lemma NothingChanged(all: seq<Signature>)
    ensures Changed(all, all) == []
  {
    if Changed(all, all) != [] { assert Changed(all, all)[0] in Changed(all, all); }
  }

  /** The empty delta of [1] against its own manifest. */
  ghost function Unchanged(p: Planner): Transaction {
    Transaction(Instruction(1, p.fileDigest([1]), []), map[])
  }

  lemma UnchangedSent(p: Planner)
    requires Sound(p)
    ensures Sends(p.blockDigest, p.fileDigest, [1], p.block, ManifestOf(p, [1]), Unchanged(p))
    ensures Intact(p, Parcel([1], Unchanged(p)))
    ensures !Fits(Parcel([1], Unchanged(p)), [2]) && Fits(Parcel([1], Unchanged(p)), [1, 5])
  {
    NothingChanged(ManifestOf(p, [1]));
    var parcel := Parcel([1], Unchanged(p));
    assert Sends(p.blockDigest, p.fileDigest, parcel.source, p.block, ManifestOf(p, [1]), parcel.t);
    assert !Covered([], 0) && At([2], 0) == 2;
  }

  /** A full transfer does not renew the manifest, so a later delta can be refused although everything
      was uploaded: the peer holds [2] while the sender's manifest says [1]. The refused delta stays,
      and after a further full transfer it puts its old content in the place of the newer one. */
  lemma StaleManifest(p: Planner)
    requires Sound(p)
    ensures var l := Link(ManifestOf(p, [1]), [1], map[]);
            var parcel := Parcel([1], Unchanged(p));
            var refused := [FullTransfer([2])]
                + ([Upload(0, [1], Unchanged(p), true, true)] + ([Inspect(0, true)] + []));
            var back := [FullTransfer([1, 5])] + ([Inspect(0, true)] + []);
            var stuck := Link(ManifestOf(p, [1]), [2], map[0 := parcel]);
            && PossibleRun(p, l, refused) && AfterRun(p, l, refused) == stuck
            && PossibleRun(p, stuck, back) && AfterRun(p, stuck, back).target == [1]
  {
    var l := Link(ManifestOf(p, [1]), [1], map[]);
    var parcel := Parcel([1], Unchanged(p));
    var full, upload, look := FullTransfer([2]), Upload(0, [1], Unchanged(p), true, true), Inspect(0, true);
    var stuck := Link(ManifestOf(p, [1]), [2], map[0 := parcel]);
    UnchangedSent(p);
    FitsExactly(p, parcel, [2]);
    var l1 := Exchanged(p, l, full);
    var l2 := Exchanged(p, l1, upload);
    assert l2 == stuck && Exchanged(p, l2, look) == stuck;
    RunFirst(p, l2, look, []);
    RunFirst(p, l1, upload, [look] + []);
    RunFirst(p, l, full, [upload] + ([look] + []));
    assert [1, 5][0] == 1;
    RefusedReturns(p, stuck, 0, [1, 5]);
  }
}
