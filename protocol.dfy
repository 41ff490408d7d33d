/**
  What the upload exchanges with the storage service: the manifests it
  sends, the replies the service gives (as the fields UploadFile reads out of
  the JSON, with gjson's defaults for missing fields), and the tagged outcomes
  those replies are interpreted into.
 */
module Protocol {
  import opened Outcomes
  import opened Chunker

  /** The manifest sent to negotiate the upload (file name, size, whole-file
      sha1 and one entry per block). */
  datatype UploadManifest = UploadManifest(name: string, size: nat, sha1: string, blocks: seq<BlockInfo>)

  /** One element of `data.storage.kss.block_metas`. */
  datatype BlockMetaReply = BlockMetaReply(isExisted: int, commitMeta: string, blockMeta: string)

  /** The `data.storage.kss` object of the negotiation reply. */
  datatype KssReply = KssReply(
    nodeUrls: seq<string>,
    fileMeta: string,
    secureKey: string,
    contentCacheKey: string,
    blockMetas: seq<BlockMetaReply>)

  /** The negotiation reply, or the transport failure of the request. */
  datatype NegotiationReply =
    | NegotiationUnreachable(reason: string)
    | NegotiationBody(
        result: string,
        description: string,
        alreadyStored: bool,
        uploadId: string,
        kss: KssReply)

  /** A block either already stored (its commit token is reused) or to be
      transferred (with the block token the node wants). */
  datatype BlockEntry = Existing(commitMeta: string) | ToUpload(blockMeta: string)

  /** The outcome of a successful negotiation. */
  datatype Negotiation =
    | Exists(uploadId: string)
    | Needs(
        node: string,
        nodeUrls: seq<string>,
        fileMeta: string,
        secureKey: string,
        contentCacheKey: string,
        uploadId: string,
        entries: seq<BlockEntry>)

  /** A block transfer: the node, and the file and block tokens that go into
      the `upload_block_chunk` URL, with the block's raw bytes as body. */
  datatype TransferRequest = TransferRequest(node: string, fileMeta: string, blockMeta: string, body: seq<bv8>)

  /** The node's reply to a block transfer, or its transport failure. */
  datatype TransferReply = TransferUnreachable(reason: string) | TransferBody(stat: string, commitMeta: string)

  /** The final registration payload: a reference to an upload the service
      already holds (`Exists: true`), or the full commit record (`Stat: "OK"`,
      `Exists: false`) carrying the ordered commit tokens. */
  datatype FinalManifest =
    | ExistingUpload(fileName: string, existingId: string)
    | BlockCommit(
        name: string,
        size: nat,
        sha1: string,
        nodeUrls: seq<string>,
        secureKey: string,
        contentCacheKey: string,
        fileMeta: string,
        commitMetas: seq<string>,
        uploadId: string)

  /** The reply to the final registration, or its transport failure. */
  datatype CommitReply = CommitUnreachable(reason: string) | CommitBody(result: string, description: string, id: string)

  /** The terminal errors of an upload. */
  datatype UploadError =
    | SizeTooBig
    | GetFileBlocksFailed
    | NetworkError(reason: string)
    | CreateBlockFailed(description: string)
    | NoAvailableNode
    | BlockOutOfRange
    | BlockReadFailed
    | BlockNotCompleted
    | CommitFailed(description: string)

  /** A request the upload sends to the service. */
  datatype Call =
    | NegotiateCall(upload: UploadManifest)
    | TransferCall(block: nat, req: TransferRequest)
    | CommitCall(parentId: string, final: FinalManifest)

  /** The service, as the replies it gives: to the negotiation, to the
      transfer of the k-th block entry, and to the final registration. */
  datatype Server = Server(
    negotiate: UploadManifest -> NegotiationReply,
    transfer: (nat, TransferRequest) -> TransferReply,
    commit: (string, FinalManifest) -> CommitReply)

  /** The only block transfer status the upload accepts. */
  const BlockCompleted: string := "BLOCK_COMPLETED"

  /** uploadBlock's reading of a block entry: `is_existed == 1` means the
      block is already stored. */
  function ClassifyEntry(m: BlockMetaReply): BlockEntry
  {
    if m.isExisted == 1 then Existing(m.commitMeta) else ToUpload(m.blockMeta)
  }

  /** UploadFile's reading of the negotiation reply. */
  function Negotiate(reply: NegotiationReply): Result<Negotiation, UploadError>
  {
    match reply
    case NegotiationUnreachable(reason) => Err(NetworkError(reason))
    case NegotiationBody(result, description, alreadyStored, uploadId, kss) =>
      if result != "ok" then Err(CreateBlockFailed(description))
      else if alreadyStored then Ok(Exists(uploadId))
      else if |kss.nodeUrls| == 0 || kss.nodeUrls[0] == "" then Err(NoAvailableNode)
      else Ok(Needs(kss.nodeUrls[0], kss.nodeUrls, kss.fileMeta, kss.secureKey, kss.contentCacheKey,
                    uploadId, seq(|kss.blockMetas|, k requires 0 <= k < |kss.blockMetas| => ClassifyEntry(kss.blockMetas[k]))))
  }

  /** uploadBlock's reading of the node's reply to a transfer. */
  function TransferOutcome(reply: TransferReply): Result<string, UploadError>
  {
    match reply
    case TransferUnreachable(reason) => Err(NetworkError(reason))
    case TransferBody(stat, commitMeta) =>
      if stat != BlockCompleted then Err(BlockNotCompleted) else Ok(commitMeta)
  }

  /** createFile's reading of the registration reply. */
  function CreateFile(reply: CommitReply): Result<string, UploadError>
  {
    match reply
    case CommitUnreachable(reason) => Err(NetworkError(reason))
    case CommitBody(result, description, id) =>
      if result != "ok" then Err(CommitFailed(description)) else Ok(id)
  }

  /** The negotiation branches: a non-"ok" result is an error carrying the
      description; otherwise `exists` means the whole file is stored; otherwise
      a missing or empty first node is an error, and else the blocks are
      needed: the first node, the node list, the file token, the keys and the
      upload id of the reply, and one entry per element of `block_metas`, in
      order, carrying that element's commit token when it is stored and its
      block token otherwise. */
  lemma NegotiationBranches(reply: NegotiationReply)
    ensures reply.NegotiationUnreachable? ==> Negotiate(reply) == Err(NetworkError(reply.reason))
    ensures reply.NegotiationBody? && reply.result != "ok" ==>
      Negotiate(reply) == Err(CreateBlockFailed(reply.description))
    ensures Negotiate(reply).Ok? && Negotiate(reply).value.Exists? <==>
      reply.NegotiationBody? && reply.result == "ok" && reply.alreadyStored
    ensures Negotiate(reply).Ok? && Negotiate(reply).value.Exists? ==>
      Negotiate(reply).value.uploadId == reply.uploadId
    ensures Negotiate(reply) == Err(NoAvailableNode) <==>
      reply.NegotiationBody? && reply.result == "ok" && !reply.alreadyStored &&
      (|reply.kss.nodeUrls| == 0 || reply.kss.nodeUrls[0] == "")
    ensures Negotiate(reply).Ok? && Negotiate(reply).value.Needs? <==>
      && reply.NegotiationBody? && reply.result == "ok" && !reply.alreadyStored
      && |reply.kss.nodeUrls| > 0 && reply.kss.nodeUrls[0] != ""
    ensures Negotiate(reply).Ok? && Negotiate(reply).value.Needs? ==>
      var n := Negotiate(reply).value;
      && n.node == reply.kss.nodeUrls[0] != ""
      && n.nodeUrls == reply.kss.nodeUrls
      && n.fileMeta == reply.kss.fileMeta
      && n.secureKey == reply.kss.secureKey
      && n.contentCacheKey == reply.kss.contentCacheKey
      && n.uploadId == reply.uploadId
      && |n.entries| == |reply.kss.blockMetas|
      && forall k :: 0 <= k < |n.entries| ==>
           && (reply.kss.blockMetas[k].isExisted == 1 ==> n.entries[k] == Existing(reply.kss.blockMetas[k].commitMeta))
           && (reply.kss.blockMetas[k].isExisted != 1 ==> n.entries[k] == ToUpload(reply.kss.blockMetas[k].blockMeta))
    {
    }

  /** A transfer is accepted only with status BLOCK_COMPLETED, and then
      yields the node's commit token. */
  lemma TransferOnlyCompleted(reply: TransferReply)
    ensures TransferOutcome(reply).Ok? <==> reply.TransferBody? && reply.stat == BlockCompleted
    ensures TransferOutcome(reply).Ok? ==> TransferOutcome(reply).value == reply.commitMeta
  {
  }

  /** createFile: a non-"ok" result is an error carrying the description,
      and otherwise the result is the new file's id. */
  lemma CreateFileOutcomes(reply: CommitReply)
    ensures CreateFile(reply).Ok? <==> reply.CommitBody? && reply.result == "ok"
    ensures CreateFile(reply).Ok? ==> CreateFile(reply).value == reply.id
    ensures reply.CommitBody? && reply.result != "ok" ==> CreateFile(reply) == Err(CommitFailed(reply.description))
  {
  }
}
