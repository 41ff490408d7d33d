/**
  The upload pipeline of UploadFile: size check, manifest, negotiation,
  the block loop of uploadBlock calls, and the final registration. Each run
  is described by its result and by the sequence of requests it sends.
 */
module Upload {
  import opened Outcomes
  import opened BlockLayout
  import opened Chunker
  import opened Protocol

  /** A request that transfers block k with the node and file token of the
      negotiation and the block token of its entry, and whose body is block
      k's range of the file whenever block k lies in the layout, and empty
      past it. */
  predicate SendsBlock(f: SourceFile, node: string, fileMeta: string, k: nat, entry: BlockEntry, c: Call)
  {
    && c.TransferCall?
    && c.block == k
    && entry.ToUpload?
    && c.req == TransferRequest(node, fileMeta, entry.blockMeta, c.req.body)
    && (k < BlockCount(|f.content|) ==> c.req.body == Bytes(f, BlockRange(|f.content|, k)))
    && (k >= BlockCount(|f.content|) ==> c.req.body == [])
  }

  /** uploadBlock for the block entry at 0-based index k: the commit token it
      yields and the transfer it sends, if any. */
  function UploadBlock(f: SourceFile, node: string, fileMeta: string, k: nat, entry: BlockEntry, s: Server)
    : (out: (Result<string, UploadError>, seq<Call>))
    ensures entry.Existing? ==> out == (Ok(entry.commitMeta), [])
    ensures |out.1| <= 1
    ensures forall c :: c in out.1 ==> SendsBlock(f, node, fileMeta, k, entry, c)
    ensures out.0.Ok? && entry.ToUpload? ==>
      |out.1| == 1 && out.1[0].TransferCall? && s.transfer(k, out.1[0].req) == TransferBody(BlockCompleted, out.0.value)
    ensures out.0 == Err(BlockOutOfRange) <==> entry.ToUpload? && k * ChunkSize > |f.content|
    ensures out.0 == Err(BlockReadFailed) <==>
      entry.ToUpload? && k * ChunkSize < |f.content| && k * ChunkSize in f.unreadable
    ensures entry.ToUpload? && out.0 != Err(BlockOutOfRange) && out.0 != Err(BlockReadFailed) ==> |out.1| == 1
    ensures |out.1| == 1 ==> out.1[0].TransferCall? && out.0 == TransferOutcome(s.transfer(k, out.1[0].req))
  {
    match entry
    case Existing(commitMeta) => (Ok(commitMeta), [])
    case ToUpload(blockMeta) =>
      TransferRangeAgrees(|f.content|, k);
      match TransferRange(|f.content|, k)
      case None => (Err(BlockOutOfRange), [])
      case Some(r) =>
        if !ReadSucceeds(f, r.offset, r.length) then (Err(BlockReadFailed), [])
        else
          var req := TransferRequest(node, fileMeta, blockMeta, Bytes(f, r));
          (TransferOutcome(s.transfer(k, req)), [TransferCall(k, req)])
  }

  /** The block loop over the first n entries: the commit tokens collected in
      order, or the first error, and the transfers sent up to it. */
  function BlocksUpTo(f: SourceFile, node: string, fileMeta: string, entries: seq<BlockEntry>, s: Server, n: nat)
    : (out: (Result<seq<string>, UploadError>, seq<Call>))
    requires n <= |entries|
    ensures out.0.Ok? ==>
      && |out.0.value| == n
      && forall k :: 0 <= k < n ==> UploadBlock(f, node, fileMeta, k, entries[k], s).0 == Ok(out.0.value[k])
    ensures forall c :: c in out.1 ==>
      c.TransferCall? && c.block < n && c in UploadBlock(f, node, fileMeta, c.block, entries[c.block], s).1
  {
    if n == 0 then (Ok([]), [])
    else
      var prev := BlocksUpTo(f, node, fileMeta, entries, s, n - 1);
      if prev.0.Err? then prev
      else
        var step := UploadBlock(f, node, fileMeta, n - 1, entries[n - 1], s);
        match step.0
        case Err(e) => (Err(e), prev.1 + step.1)
        case Ok(token) => (Ok(prev.0.value + [token]), prev.1 + step.1)
  }

  /** The manifest UploadFile negotiates with: the single-block shortcut for
      files of at most ChunkSize bytes, otherwise the chunker's manifest, or
      none when a block could not be read. */
  function Manifest(f: SourceFile, h: Digests): Option<UploadManifest>
  {
    var size := |f.content|;
    var fileSha1 := h.sha1(f.content);
    if size > ChunkSize then
      if AllBlocksReadable(f) then Some(UploadManifest(f.name, size, fileSha1, ExpectedBlocks(f, h))) else None
    else
      Some(UploadManifest(f.name, size, fileSha1, [BlockInfo(fileSha1, h.md5(f.content), size)]))
  }

  /** The final registration: createFile's result and the request it adds. */
  function Commit(parentId: string, final: FinalManifest, s: Server, sent: seq<Call>)
    : (Result<string, UploadError>, seq<Call>)
  {
    (CreateFile(s.commit(parentId, final)), sent + [CommitCall(parentId, final)])
  }

  /** The whole of UploadFile: its result and every request it sends, in order. */
  function Pipeline(f: SourceFile, parentId: string, h: Digests, s: Server): (Result<string, UploadError>, seq<Call>)
  {
    if !SizeAccepted(|f.content|) then (Err(SizeTooBig), [])
    else
      match Manifest(f, h)
      case None => (Err(GetFileBlocksFailed), [])
      case Some(m) =>
        var asked := [NegotiateCall(m)];
        match Negotiate(s.negotiate(m))
        case Err(e) => (Err(e), asked)
        case Ok(Exists(uploadId)) => Commit(parentId, ExistingUpload(f.name, uploadId), s, asked)
        case Ok(Needs(node, nodeUrls, fileMeta, secureKey, contentCacheKey, uploadId, entries)) =>
          var blocks := BlocksUpTo(f, node, fileMeta, entries, s, |entries|);
          match blocks.0
          case Err(e) => (Err(e), asked + blocks.1)
          case Ok(commitMetas) =>
            Commit(parentId,
                   BlockCommit(f.name, m.size, m.sha1, nodeUrls, secureKey, contentCacheKey, fileMeta, commitMetas, uploadId),
                   s, asked + blocks.1)
  }

  /** UploadFile: check the size, build the manifest, negotiate, transfer the
      missing blocks one after the other, and register the file. */
  method UploadFile(f: SourceFile, parentId: string, h: Digests, s: Server)
    returns (r: Result<string, UploadError>, calls: seq<Call>)
    ensures (r, calls) == Pipeline(f, parentId, h, s)
    ensures !SizeAccepted(|f.content|) ==> r == Err(SizeTooBig) && calls == []
    ensures r.Ok? ==> |calls| >= 2 && calls[|calls| - 1].CommitCall? && calls[0].NegotiateCall?
  {
    var fileSize := |f.content|;
    if fileSize == 0 || fileSize >= SizeCeiling {
      return Err(SizeTooBig), [];
    }
    var fileSha1 := h.sha1(f.content);
    var blockInfos: seq<BlockInfo>;
    if fileSize > ChunkSize {
      var chunked := GetFileBlocksStrict(f, h);
      if chunked.None? {
        return Err(GetFileBlocksFailed), [];
      }
      blockInfos := chunked.value;
    } else {
      blockInfos := [BlockInfo(fileSha1, h.md5(f.content), fileSize)];
    }
    var manifest := UploadManifest(f.name, fileSize, fileSha1, blockInfos);
    assert Manifest(f, h) == Some(manifest);
    calls := [NegotiateCall(manifest)];
    var negotiation := Negotiate(s.negotiate(manifest));
    if negotiation.Err? {
      return Err(negotiation.error), calls;
    }
    match negotiation.value
    case Exists(uploadId) =>
      var final := ExistingUpload(f.name, uploadId);
      r := CreateFile(s.commit(parentId, final));
      calls := calls + [CommitCall(parentId, final)];
    case Needs(node, nodeUrls, fileMeta, secureKey, contentCacheKey, uploadId, entries) =>
      var commitMetas: seq<string> := [];
      var sent: seq<Call> := [];
      var k := 0;
      while k < |entries|
        invariant k <= |entries|
        invariant BlocksUpTo(f, node, fileMeta, entries, s, k) == (Ok(commitMetas), sent)
      {
        var step := UploadBlock(f, node, fileMeta, k, entries[k], s);
        sent := sent + step.1;
        if step.0.Err? {
          ErrorSticks(f, node, fileMeta, entries, s, k + 1, |entries|);
          return Err(step.0.error), calls + sent;
        }
        commitMetas := commitMetas + [step.0.value];
        k := k + 1;
      }
      var final := BlockCommit(f.name, fileSize, fileSha1, nodeUrls, secureKey, contentCacheKey,
                               fileMeta, commitMetas, uploadId);
      r := CreateFile(s.commit(parentId, final));
      calls := calls + sent + [CommitCall(parentId, final)];
  }

  /** Once a block fails, the loop stops: later entries change neither the
      error nor the transfers sent. */
  lemma {:induction false} ErrorSticks(f: SourceFile, node: string, fileMeta: string, entries: seq<BlockEntry>,
                                       s: Server, n: nat, m: nat)
    requires n <= m <= |entries|
    requires BlocksUpTo(f, node, fileMeta, entries, s, n).0.Err?
    ensures BlocksUpTo(f, node, fileMeta, entries, s, m) == BlocksUpTo(f, node, fileMeta, entries, s, n)
    decreases m
  {
    if m > n {
      ErrorSticks(f, node, fileMeta, entries, s, n, m - 1);
    }
  }

  /** If every one of the first n entries yields a token, the loop succeeds. */
  lemma {:induction false} AllStepsOk(f: SourceFile, node: string, fileMeta: string, entries: seq<BlockEntry>,
                                      s: Server, n: nat)
    requires n <= |entries|
    requires forall k :: 0 <= k < n ==> UploadBlock(f, node, fileMeta, k, entries[k], s).0.Ok?
    ensures BlocksUpTo(f, node, fileMeta, entries, s, n).0.Ok?
  {
    if n > 0 {
      AllStepsOk(f, node, fileMeta, entries, s, n - 1);
    }
  }

  /** The manifest negotiated with: same name, size and whole-file sha1 as
      the file, one entry per block of the layout with digests over exactly
      that block, sizes adding up to the file size, and for a file of at most
      ChunkSize bytes the single whole-file entry. It is missing only when a
      chunked file has an unreadable block. */
  lemma ManifestDescribesFile(f: SourceFile, h: Digests)
    requires SizeAccepted(|f.content|)
    ensures Manifest(f, h).None? <==> |f.content| > ChunkSize && !AllBlocksReadable(f)
    ensures Manifest(f, h).Some? ==>
      var m := Manifest(f, h).value;
      && m.name == f.name && m.size == |f.content| && m.sha1 == h.sha1(f.content)
      && m.blocks == ExpectedBlocks(f, h)
      && |m.blocks| == BlockCount(|f.content|)
      && TotalSize(m.blocks) == |f.content|
    ensures |f.content| <= ChunkSize ==>
      Manifest(f, h) == Some(UploadManifest(f.name, |f.content|, h.sha1(f.content),
                                            [BlockInfo(h.sha1(f.content), h.md5(f.content), |f.content|)]))
  {
    ExpectedBlocksSizes(f, h);
    if |f.content| <= ChunkSize {
      SingleBlockAgrees(f, h);
    }
  }

  /** When negotiation fails, the negotiation request is the only one sent. */
  lemma NegotiationFailureStops(f: SourceFile, parentId: string, h: Digests, s: Server, m: UploadManifest)
    requires SizeAccepted(|f.content|) && Manifest(f, h) == Some(m)
    requires Negotiate(s.negotiate(m)).Err?
    ensures Pipeline(f, parentId, h, s) == (Err(Negotiate(s.negotiate(m)).error), [NegotiateCall(m)])
  {
  }

  /** When the service already holds the file, it is registered by its upload
      id straight away and no block is transferred. */
  lemma ExistingFileSkipsTransfers(f: SourceFile, parentId: string, h: Digests, s: Server, m: UploadManifest)
    requires SizeAccepted(|f.content|) && Manifest(f, h) == Some(m)
    requires Negotiate(s.negotiate(m)).Ok? && Negotiate(s.negotiate(m)).value.Exists?
    ensures var final := ExistingUpload(f.name, Negotiate(s.negotiate(m)).value.uploadId);
      Pipeline(f, parentId, h, s) == (CreateFile(s.commit(parentId, final)), [NegotiateCall(m), CommitCall(parentId, final)])
  {
    var uploadId := Negotiate(s.negotiate(m)).value.uploadId;
    assert Negotiate(s.negotiate(m)) == Ok(Exists(uploadId));
    var final := ExistingUpload(f.name, uploadId);
    assert Pipeline(f, parentId, h, s) == Commit(parentId, final, s, [NegotiateCall(m)]);
    assert [NegotiateCall(m)] + [CommitCall(parentId, final)] == [NegotiateCall(m), CommitCall(parentId, final)];
  }

  /** Block transfers appear in strictly increasing order of their entry index. */
  predicate Ascending(calls: seq<Call>)
  {
    forall i, j :: 0 <= i < j < |calls| && calls[i].TransferCall? && calls[j].TransferCall? ==>
      calls[i].block < calls[j].block
  }

  /** The block loop handles the entries one after the other, so its
      transfers go out in ascending entry order. */
  lemma {:induction false} LoopAscending(f: SourceFile, node: string, fileMeta: string, entries: seq<BlockEntry>,
                                         s: Server, n: nat)
    requires n <= |entries|
    ensures Ascending(BlocksUpTo(f, node, fileMeta, entries, s, n).1)
  {
    if n > 0 {
      LoopAscending(f, node, fileMeta, entries, s, n - 1);
      var prev := BlocksUpTo(f, node, fileMeta, entries, s, n - 1);
      if prev.0.Ok? {
        var step := UploadBlock(f, node, fileMeta, n - 1, entries[n - 1], s);
        AppendAscending(prev.1, step.1, n - 1);
      }
    }
  }

  /** Appending at most one transfer of a block above every block already
      sent keeps the transfers ascending. */
  lemma AppendAscending(sent: seq<Call>, next: seq<Call>, k: nat)
    requires Ascending(sent) && |next| <= 1
    requires forall c :: c in sent ==> c.TransferCall? && c.block < k
    requires forall c :: c in next ==> c.TransferCall? && c.block == k
    ensures Ascending(sent + next)
  {
    var calls := sent + next;
    forall i, j | 0 <= i < j < |calls| && calls[i].TransferCall? && calls[j].TransferCall?
      ensures calls[i].block < calls[j].block
    {
      if j >= |sent| {
        assert calls[j] in next;
        assert calls[i] in sent;
      } else {
        assert calls[i] == sent[i] && calls[j] == sent[j];
      }
    }
  }

  /** The requests of a run that needs blocks: the negotiation first, then
      transfers of block entries in ascending entry order, each carrying the
      bytes and tokens of its block, and a final registration exactly when
      every block succeeded. */
  lemma TransfersFollowEntries(f: SourceFile, parentId: string, h: Digests, s: Server, m: UploadManifest)
    requires SizeAccepted(|f.content|) && Manifest(f, h) == Some(m)
    requires Negotiate(s.negotiate(m)).Ok? && Negotiate(s.negotiate(m)).value.Needs?
    ensures var n := Negotiate(s.negotiate(m)).value;
      var calls := Pipeline(f, parentId, h, s).1;
      && calls[0] == NegotiateCall(m)
      && Ascending(calls)
      && (forall i :: 1 <= i < |calls| && calls[i].TransferCall? ==>
           && calls[i].block < |n.entries|
           && SendsBlock(f, n.node, n.fileMeta, calls[i].block, n.entries[calls[i].block], calls[i]))
      && (calls[|calls| - 1].CommitCall? <==>
           forall k :: 0 <= k < |n.entries| ==> UploadBlock(f, n.node, n.fileMeta, k, n.entries[k], s).0.Ok?)
  {
    var n := Negotiate(s.negotiate(m)).value;
    var blocks := BlocksUpTo(f, n.node, n.fileMeta, n.entries, s, |n.entries|);
    PipelineWhenBlocksNeeded(f, parentId, h, s, m);
    LoopAscending(f, n.node, n.fileMeta, n.entries, s, |n.entries|);
    var tail := if blocks.0.Err? then [] else [Pipeline(f, parentId, h, s).1[|Pipeline(f, parentId, h, s).1| - 1]];
    assert Pipeline(f, parentId, h, s).1 == [NegotiateCall(m)] + blocks.1 + tail;
    FramedAscending(NegotiateCall(m), blocks.1, tail);
    if forall k :: 0 <= k < |n.entries| ==> UploadBlock(f, n.node, n.fileMeta, k, n.entries[k], s).0.Ok? {
      AllStepsOk(f, n.node, n.fileMeta, n.entries, s, |n.entries|);
    }
  }

  /** Surrounding an ascending run of transfers with requests that are not
      transfers keeps it ascending. */
  lemma FramedAscending(head: Call, body: seq<Call>, tail: seq<Call>)
    requires !head.TransferCall? && Ascending(body)
    requires forall c :: c in tail ==> !c.TransferCall?
    ensures Ascending([head] + body + tail)
  {
    var calls := [head] + body + tail;
    assert forall t :: |body| < t < |calls| ==> calls[t] in tail;
    forall i, j | 0 <= i < j < |calls| && calls[i].TransferCall? && calls[j].TransferCall?
      ensures calls[i].block < calls[j].block
    {
      assert calls[i] == body[i - 1] && calls[j] == body[j - 1];
    }
  }

  /** The first failing block aborts the upload with its error: no later
      block is transferred and the file is never registered. */
  lemma BlockFailureAborts(f: SourceFile, parentId: string, h: Digests, s: Server, m: UploadManifest, k: nat)
    requires SizeAccepted(|f.content|) && Manifest(f, h) == Some(m)
    requires Negotiate(s.negotiate(m)).Ok? && Negotiate(s.negotiate(m)).value.Needs?
    requires var n := Negotiate(s.negotiate(m)).value;
      && k < |n.entries|
      && (forall j :: 0 <= j < k ==> UploadBlock(f, n.node, n.fileMeta, j, n.entries[j], s).0.Ok?)
      && UploadBlock(f, n.node, n.fileMeta, k, n.entries[k], s).0.Err?
    ensures var n := Negotiate(s.negotiate(m)).value;
      var out := Pipeline(f, parentId, h, s);
      && out.0 == UploadBlock(f, n.node, n.fileMeta, k, n.entries[k], s).0
      && forall c :: c in out.1 ==> !c.CommitCall? && (c.TransferCall? ==> c.block <= k)
  {
    var n := Negotiate(s.negotiate(m)).value;
    LoopStopsAtFailure(f, n.node, n.fileMeta, n.entries, s, k);
    PipelineWhenBlocksNeeded(f, parentId, h, s, m);
  }

  /** The block loop over all entries ends with the error of the first
      failing entry k, having sent transfers for entries up to k only. */
  lemma LoopStopsAtFailure(f: SourceFile, node: string, fileMeta: string, entries: seq<BlockEntry>, s: Server, k: nat)
    requires k < |entries|
    requires forall j :: 0 <= j < k ==> UploadBlock(f, node, fileMeta, j, entries[j], s).0.Ok?
    requires UploadBlock(f, node, fileMeta, k, entries[k], s).0.Err?
    ensures var blocks := BlocksUpTo(f, node, fileMeta, entries, s, |entries|);
      && blocks.0 == Err(UploadBlock(f, node, fileMeta, k, entries[k], s).0.error)
      && forall c :: c in blocks.1 ==> c.TransferCall? && c.block <= k
  {
    AllStepsOk(f, node, fileMeta, entries, s, k);
    var prev := BlocksUpTo(f, node, fileMeta, entries, s, k);
    var step := UploadBlock(f, node, fileMeta, k, entries[k], s);
    assert BlocksUpTo(f, node, fileMeta, entries, s, k + 1) == (Err(step.0.error), prev.1 + step.1);
    ErrorSticks(f, node, fileMeta, entries, s, k + 1, |entries|);
  }

  /** A run that needs blocks is the negotiation, the block loop over all
      entries, and the registration of the collected tokens if the loop
      succeeded. */
  lemma PipelineWhenBlocksNeeded(f: SourceFile, parentId: string, h: Digests, s: Server, m: UploadManifest)
    requires SizeAccepted(|f.content|) && Manifest(f, h) == Some(m)
    requires Negotiate(s.negotiate(m)).Ok? && Negotiate(s.negotiate(m)).value.Needs?
    ensures var n := Negotiate(s.negotiate(m)).value;
      var blocks := BlocksUpTo(f, n.node, n.fileMeta, n.entries, s, |n.entries|);
      Pipeline(f, parentId, h, s) ==
        if blocks.0.Err? then (Err(blocks.0.error), [NegotiateCall(m)] + blocks.1)
        else Commit(parentId,
                    BlockCommit(f.name, m.size, m.sha1, n.nodeUrls, n.secureKey, n.contentCacheKey, n.fileMeta,
                                blocks.0.value, n.uploadId),
                    s, [NegotiateCall(m)] + blocks.1)
  {
  }

  /** A successful run that needed blocks ends by registering, under the
      parent folder, the file's name, size and sha1 with the negotiated node
      list, keys, file token and upload id, and one commit token per block
      entry in the order of the entries: the supplied token for an already
      stored block, the node's token for a transferred one. Its result is the
      registration's outcome. */
  lemma SuccessCommitsTokensInOrder(f: SourceFile, parentId: string, h: Digests, s: Server, m: UploadManifest)
    requires SizeAccepted(|f.content|) && Manifest(f, h) == Some(m)
    requires Negotiate(s.negotiate(m)).Ok? && Negotiate(s.negotiate(m)).value.Needs?
    requires Pipeline(f, parentId, h, s).0.Ok?
    ensures var n := Negotiate(s.negotiate(m)).value;
      var calls := Pipeline(f, parentId, h, s).1;
      && calls[|calls| - 1].CommitCall?
      && calls[|calls| - 1].final.BlockCommit?
      && calls[0] == NegotiateCall(m)
      && calls[|calls| - 1].parentId == parentId
      && var final := calls[|calls| - 1].final;
      && final == BlockCommit(f.name, |f.content|, h.sha1(f.content), n.nodeUrls, n.secureKey, n.contentCacheKey,
                              n.fileMeta, final.commitMetas, n.uploadId)
      && Pipeline(f, parentId, h, s).0 == CreateFile(s.commit(parentId, final))
      && |final.commitMetas| == |n.entries|
      && forall k :: 0 <= k < |n.entries| ==>
           && (n.entries[k].Existing? ==> final.commitMetas[k] == n.entries[k].commitMeta)
           && (n.entries[k].ToUpload? ==>
                 exists c :: c in calls && c.TransferCall? && c.block == k &&
                   s.transfer(k, c.req) == TransferBody(BlockCompleted, final.commitMetas[k]))
  {
    var n := Negotiate(s.negotiate(m)).value;
    var blocks := BlocksUpTo(f, n.node, n.fileMeta, n.entries, s, |n.entries|);
    var calls := Pipeline(f, parentId, h, s).1;
    ManifestDescribesFile(f, h);
    PipelineWhenBlocksNeeded(f, parentId, h, s, m);
    assert blocks.0.Ok?;
    var final := calls[|calls| - 1].final;
    forall k | 0 <= k < |n.entries| && n.entries[k].ToUpload?
      ensures exists c :: c in calls && c.TransferCall? && c.block == k &&
                s.transfer(k, c.req) == TransferBody(BlockCompleted, final.commitMetas[k])
    {
      var step := UploadBlock(f, n.node, n.fileMeta, k, n.entries[k], s);
      var c := step.1[0];
      BlockTransferInTrace(f, n.node, n.fileMeta, n.entries, s, |n.entries|, k);
      assert c in calls;
    }
  }

  /** A transfer sent by block k on a successful loop is part of the loop's trace. */
  lemma {:induction false} BlockTransferInTrace(f: SourceFile, node: string, fileMeta: string,
                                                entries: seq<BlockEntry>, s: Server, n: nat, k: nat)
    requires k < n <= |entries|
    requires BlocksUpTo(f, node, fileMeta, entries, s, n).0.Ok?
    ensures forall c :: c in UploadBlock(f, node, fileMeta, k, entries[k], s).1 ==>
      c in BlocksUpTo(f, node, fileMeta, entries, s, n).1
  {
    var prev := BlocksUpTo(f, node, fileMeta, entries, s, n - 1);
    if prev.0.Err? {
      assert false;
    }
    if k < n - 1 {
      BlockTransferInTrace(f, node, fileMeta, entries, s, n - 1, k);
    }
  }

  /** When every block entry is already stored, no block is transferred and
      the supplied commit tokens are registered in order. */
  lemma AllBlocksStoredNoTransfers(f: SourceFile, parentId: string, h: Digests, s: Server, m: UploadManifest)
    requires SizeAccepted(|f.content|) && Manifest(f, h) == Some(m)
    requires Negotiate(s.negotiate(m)).Ok? && Negotiate(s.negotiate(m)).value.Needs?
    requires var n := Negotiate(s.negotiate(m)).value;
      forall k :: 0 <= k < |n.entries| ==> n.entries[k].Existing?
    ensures var n := Negotiate(s.negotiate(m)).value;
      var calls := Pipeline(f, parentId, h, s).1;
      && |calls| == 2
      && calls[0] == NegotiateCall(m)
      && calls[1].CommitCall? && calls[1].final.BlockCommit?
      && |calls[1].final.commitMetas| == |n.entries|
      && forall k :: 0 <= k < |n.entries| ==> calls[1].final.commitMetas[k] == n.entries[k].commitMeta
  {
    var n := Negotiate(s.negotiate(m)).value;
    StoredBlocksLoop(f, n.node, n.fileMeta, n.entries, s, |n.entries|);
  }

  /** The loop over entries that are all already stored sends nothing and
      collects their tokens in order. */
  lemma {:induction false} StoredBlocksLoop(f: SourceFile, node: string, fileMeta: string,
                                            entries: seq<BlockEntry>, s: Server, n: nat)
    requires n <= |entries|
    requires forall k :: 0 <= k < n ==> entries[k].Existing?
    ensures BlocksUpTo(f, node, fileMeta, entries, s, n).1 == []
    ensures BlocksUpTo(f, node, fileMeta, entries, s, n).0.Ok?
    ensures forall k :: 0 <= k < n ==>
      BlocksUpTo(f, node, fileMeta, entries, s, n).0.value[k] == entries[k].commitMeta
  {
    if n > 0 {
      StoredBlocksLoop(f, node, fileMeta, entries, s, n - 1);
      var prev := BlocksUpTo(f, node, fileMeta, entries, s, n - 1);
      var step := UploadBlock(f, node, fileMeta, n - 1, entries[n - 1], s);
      assert step == (Ok(entries[n - 1].commitMeta), []);
      assert prev.1 + step.1 == [];
    }
  }
}
