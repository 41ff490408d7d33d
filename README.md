# Chunked upload of go-micloud, modelled in Dafny

This project models how the go-micloud client uploads a local file to Xiaomi
Cloud storage, as implemented in `internal/file/file.go`. The upload has these steps:

1. Refuse empty files and files of 4 GiB or more.
2. Describe the file in a manifest. A file of at most `ChunkSize` (4 MiB) bytes gets one entry built from its
   whole-file digests. A larger file is cut into 4 MiB blocks, and each block is hashed over exactly its own
   byte range (`getFileBlocks`).
3. Negotiate with the service. The reply is one of three things:
   - an error carrying its description;
   - "the file already exists", which goes straight to registration with the upload id;
   - a node address plus one entry per block. Each entry either already exists, with a commit token, or has to
     be transferred.
4. Transfer the missing blocks one by one. `uploadBlock` recomputes each block's range. It accepts only the
   status `BLOCK_COMPLETED`, and the first failure aborts the upload.
5. Register the file with the ordered commit tokens (`createFile`). On success this returns the new file's id.

Modules:

- `Outcomes` (outcomes.dfy): `Option` and `Result`.
- `BlockLayout` (layout.dfy): pure block arithmetic.
  - `BlockCount` is the integer ceiling of size / ChunkSize.
  - `BlockRange` and `Layout` give the ranges `getFileBlocks` hashes.
  - `TransferRange` is the second, independent computation that `uploadBlock` does.
  - Lemmas cover contiguity, non-overlap, the lengths summing to the size, and the two computations agreeing.
- `Chunker` (chunker.dfy): `getFileBlocks` as imperative methods. Each method reads the blocks in order into an
  `array` buffer that is replaced by a shorter one for the tail, and hashes each block it reads.
  - The digests are uninterpreted: the `Digests` parameter can hold any two functions from bytes to strings.
  - `SourceFile.unreadable` lists the offsets where a read fails.
  - Lemmas show that every digest is taken over exactly its block's bytes, that the blocks reassemble into the
    file, and that the single-block shortcut agrees with the layout.
- `Protocol` (protocol.dfy): the service's replies, as the fields `UploadFile` reads out of the JSON, and how those
  replies are read (`Negotiate`, `ClassifyEntry`, `TransferOutcome`, `CreateFile`).
- `Upload` (upload.dfy): `uploadBlock` as the function `UploadBlock`, the block loop's specification `BlocksUpTo`,
  the whole run as `Pipeline`, and the method `UploadFile` with the block loop.
  - A run returns its result and the sequence of requests it sent. Properties such as "no block is transferred"
    and "the file is never registered" are therefore statements about that sequence.

The service is a parameter `Server` made of three functions: the reply to the negotiation, the reply to the
transfer of block entry k, and the reply to the registration.

The model follows the code in these places:

- The code refuses a file of 4 GiB or more (`>=` at file.go:63), not only files over 4 GiB.
- The code never checks that the node list is non-empty. It indexes `nodeUrls[0]` (file.go:137), which would
  panic on an empty list. The model turns both an empty list and an empty first URL into `NoAvailableNode`.
- `Chunker.GetFileBlocks` skips a block whose read fails, as file.go:197-200 does (see Findings below). The
  pipeline does not follow the code here: see the `Upload.UploadFile` line under Left out.

## Model

| member | source | states |
|---|---|---|
| BlockLayout.SizeAccepted | internal/file/file.go:63-65 | the size check: a file is accepted exactly when it is non-empty and smaller than 4 GiB; its boundaries are stated by Boundaries |
| BlockLayout.BlockCount | internal/file/file.go:184 | the block count n is the ceiling of size / ChunkSize: size <= n*ChunkSize, (n-1)*ChunkSize < size, and n is 0 only for an empty file |
| BlockLayout.BlockRange | internal/file/file.go:191-196 | block k starts at k*ChunkSize, holds 1 to ChunkSize bytes, is full unless it is the last, and the last ends at the file size |
| BlockLayout.TransferRange | internal/file/file.go:224-228 | the range uploadBlock reads for index k lies inside the file whenever it exists; TransferRangeAgrees relates it to the layout |
| BlockLayout.TransferRangeAgrees | internal/file/file.go:224-228 | the range uploadBlock computes for index k equals the range getFileBlocks reads for block k+1; past the layout it is an empty range at the end of the file, or none |
| BlockLayout.LayoutContiguous | internal/file/file.go:191-196 | the first block starts at 0, each block starts where the previous one ends, and the last ends at the file size |
| BlockLayout.LayoutDisjoint | internal/file/file.go:191-196 | an earlier block ends no later than a later block starts |
| BlockLayout.LayoutPrefixTotal | internal/file/file.go:191-207 | the first m blocks hold m*ChunkSize bytes when m is below the block count, and all blocks hold the file size |
| BlockLayout.LayoutTotal | internal/file/file.go:191-207 | the block lengths sum to the file size |
| BlockLayout.Boundaries | internal/file/file.go:63-73 | sizes 0 and 4 GiB are refused and 4 GiB - 1 is accepted; a ChunkSize file is one block and a ChunkSize+1 file is two |
| BlockLayout.TenMiBLayout | internal/file/file.go:184-196 | a 10 MiB file is cut into blocks of 4 MiB, 4 MiB and 2 MiB |
| Chunker.ReadAt | internal/file/file.go:193-197 | the seek and read fill the buffer with the file's bytes at that offset, unless the read fails there |
| Chunker.GetFileBlocks | internal/file/file.go:183-210 | getFileBlocks as written: the manifest holds, in order, the entry of every block whose read succeeded, with digests over that block's bytes |
| Chunker.GetFileBlocksStrict | internal/file/file.go:183-210 | chunking with read errors propagated: exactly the entry of every layout block in order when all reads succeed, otherwise no manifest |
| Chunker.ExpectedBlockAt | internal/file/file.go:201-206 | entry k has the size of layout block k, and its sha1 and md5 are taken over exactly that block's bytes |
| Chunker.ExpectedBlocksSizes | internal/file/file.go:191-207 | every entry holds 1 to ChunkSize bytes, all but the last exactly ChunkSize, and the sizes add up to the file size |
| Chunker.LayoutPartitionsContent | internal/file/file.go:191-207 | concatenating the blocks' bytes in order gives back the file content |
| Chunker.SingleBlockAgrees | internal/file/file.go:78-87 | for 0 < size <= ChunkSize the shortcut entry (whole-file sha1 and md5, size = file size) is exactly what the block layout gives |
| Chunker.KeptAllWhenReadable | internal/file/file.go:197-207 | when every read succeeds, getFileBlocks as written keeps every block of the layout |
| Chunker.KeptTotalBound | internal/file/file.go:191-207 | getFileBlocks as written keeps no more entries, and no more bytes, than the first n blocks of the layout hold |
| Chunker.KeptBlockSizes | internal/file/file.go:191-205 | every entry getFileBlocks as written emits holds 1 to ChunkSize bytes, whichever reads fail |
| Chunker.KeptTotalShort | internal/file/file.go:197-200 | one unreadable block among the first n leaves getFileBlocks as written with fewer entries than n and fewer bytes than those blocks hold |
| Chunker.SkippedReadLosesBytes | internal/file/file.go:197-200 | when a read fails, getFileBlocks as written returns fewer entries than blocks, and their sizes add up to less than the file size |
| Chunker.StrictManifestComplete | internal/file/file.go:183-210 | a complete manifest has ceil(size / ChunkSize) entries whose sizes add up to the file size |
| Protocol.ClassifyEntry | internal/file/file.go:219-222 | specification function: a block_metas element with is_existed == 1 is a stored block with its commit_meta, any other a block to send with its block_meta; its use is stated by NegotiationBranches |
| Protocol.Negotiate | internal/file/file.go:113-140 | specification function for UploadFile's reading of the negotiation reply; its branches are stated by NegotiationBranches |
| Protocol.NegotiationBranches | internal/file/file.go:113-140 | a non-"ok" result is an error with the description; an ok result with exists set is "file exists" with the upload id; otherwise a missing or empty first node is an error; otherwise, and only then, the blocks are needed: the first node, the node list, file_meta, secure_key, contentCacheKey and uploadId of the reply, and one entry per block_metas element, in order, which carries its commit_meta when is_existed == 1 and its block_meta otherwise |
| Protocol.TransferOutcome | internal/file/file.go:240-250 | specification function for uploadBlock's reading of the transfer reply; stated by TransferOnlyCompleted |
| Protocol.TransferOnlyCompleted | internal/file/file.go:245-250 | a transfer is accepted if and only if its status is BLOCK_COMPLETED, and then yields the node's commit_meta |
| Protocol.CreateFile | internal/file/file.go:269-283 | specification function for createFile's reading of the registration reply; stated by CreateFileOutcomes |
| Protocol.CreateFileOutcomes | internal/file/file.go:278-283 | registration succeeds if and only if the result is "ok", then with data.id; a non-"ok" result is an error with the description |
| Upload.UploadBlock | internal/file/file.go:213-252 | an already stored block yields its supplied token with no transfer; a block to be sent fails with BlockOutOfRange exactly when its offset k*ChunkSize is past the end of the file, and with BlockReadFailed exactly when the read at a non-empty range fails; otherwise exactly one transfer is sent, for index k, with the negotiated node and file token, the entry's block token and block k's bytes inside the layout, an empty body past it, and the result is what that reply means: the node's token on BLOCK_COMPLETED, an error otherwise |
| Upload.BlocksUpTo | internal/file/file.go:146-157 | when the loop succeeds it has one token per entry, in entry order, each the one that entry's uploadBlock yields; every request it sent is the transfer of one of those entries |
| Upload.Manifest | internal/file/file.go:67-100 | specification function for the negotiated manifest; stated by ManifestDescribesFile |
| Upload.Pipeline | internal/file/file.go:54-180 | specification function for a whole UploadFile run, its result and its requests; stated by UploadFile and the lemmas below |
| Upload.UploadFile | internal/file/file.go:54-180 | the method's result and requests are those of Pipeline; a refused size gives SizeTooBig before any request; a success always ends with the registration |
| Upload.ErrorSticks | internal/file/file.go:148-152 | after the first block error, later entries change neither the error nor the requests sent |
| Upload.AllStepsOk | internal/file/file.go:148-154 | if every entry's uploadBlock succeeds, the loop succeeds |
| Upload.ManifestDescribesFile | internal/file/file.go:67-100 | the negotiated manifest has the file's name, size and sha1, one entry per layout block, and sizes adding up to the size; a file of at most ChunkSize bytes gets the single whole-file entry; the manifest is missing only when a chunked file has an unreadable block |
| Upload.NegotiationFailureStops | internal/file/file.go:106-116 | a failed negotiation returns its error after sending only the negotiation request |
| Upload.ExistingFileSkipsTransfers | internal/file/file.go:117-128 | when the file already exists, the requests are the negotiation and then a registration by upload id, with no block transfer |
| Upload.TransfersFollowEntries | internal/file/file.go:146-178 | the negotiation comes first; later transfers go out in strictly ascending entry order, and each belongs to a block entry that needs upload and carries that block's bytes and tokens; the run ends with the registration exactly when every entry's uploadBlock succeeds |
| Upload.LoopAscending | internal/file/file.go:148-150 | the block loop sends its transfers in strictly ascending entry order |
| Upload.BlockFailureAborts | internal/file/file.go:148-152 | the first failing block's error is the upload's result; no later block is transferred and the file is never registered |
| Upload.LoopStopsAtFailure | internal/file/file.go:148-152 | the block loop ends with the error of the first failing entry k, and it has sent transfers only for entries up to k |
| Upload.SuccessCommitsTokensInOrder | internal/file/file.go:147-178 | a successful run starts with the negotiation and ends by registering, under parentId, the file's name, size and sha1 with the negotiated node list, secure_key, contentCacheKey, file_meta and uploadId and one commit token per block entry, in order (a stored block's supplied token, a transferred block's token returned with BLOCK_COMPLETED); its result is createFile's reading of that registration's reply |
| Upload.StoredBlocksLoop | internal/file/file.go:219-220 | a loop over already stored entries sends nothing and collects their tokens in order |
| Upload.AllBlocksStoredNoTransfers | internal/file/file.go:146-178 | when every block entry is already stored, the requests are only the negotiation and the registration, which carries the supplied tokens in order |

## Left out

- HTTP requests, headers, form encoding, cookies and the session token. Each exchange is a request datatype and a
  reply from the `Server` parameter. The server is a function of the request (and, for transfers, of the block
  index), so it cannot answer differently to identical requests.
- JSON marshalling and gjson parsing. Replies are records of the fields the code reads, and the final manifest is a
  tagged datatype. The `Stat: "OK"` and `Exists` constants of the payload are implied by its constructor.
- The SHA-1 and MD5 implementations (`utils.FileHash`, `utils.FilePathHash`). They are the uninterpreted `Digests`
  parameter. One `Digests` value stands for both: `FilePathHash` over the whole file (file.go:68, 84) and
  `FileHash` over a block's bytes (file.go:203-204). The model assumes the two give the same digest of the same
  bytes, and `Chunker.SingleBlockAgrees` depends on that assumption. How `FilePathHash` itself fails is not modelled: the whole-file digests always succeed.
- Errors from `os.Stat`, `os.Open`, `os.OpenFile` and `Seek`, and short reads. A read either fills its buffer or
  fails at an unreadable offset.
- The float ceiling `math.Ceil(float64(...))` (file.go:184) is modelled as integer ceiling division. The two agree
  for all sizes below 4 GiB.
- Go's `int` is assumed to be 64 bits wide, so no integer overflows below 4 GiB. On a 32-bit target the casts
  `int(fileInfo.Size()-offset)` (file.go:194, 226-227) and the product `num * ChunkSize` (file.go:224) would
  overflow for files over 2 GiB; the model uses unbounded integers and does not capture that.
- One set `SourceFile.unreadable` decides every read, while hashing and while uploading alike. So in the model a
  block of a chunked file that hashed fine cannot then fail its read in `uploadBlock` (file.go:231-233). In the
  code the file can change between the two reads, and that read can fail.
- Go panics are modelled as errors:
  - an empty `node_urls` array becomes `NoAvailableNode`;
  - a block entry whose offset is past the end of the file makes `make([]byte, negative)` panic, and becomes
    `BlockOutOfRange`.
- The "block info error" type assertion (file.go:214-217) cannot fail, because gjson arrays hold `gjson.Result`
  values. Block entries are typed in the model, so the check has nothing to do.
- The ignored `ioutil.ReadAll` error (file.go:244). The transfer reply is given directly.
- Logging, progress printing, and the counter `i` of the block loop, which only feeds the progress line.
- `GetFile`, `GetFileDownLoadUrl`, `GetFolder`, `CreateFolder` and `DeleteFile`. They are plain request/response
  wrappers.
- Upload.Manifest, Upload.Pipeline, Upload.UploadFile: the model's manifest comes from the corrected chunker `GetFileBlocksStrict`, so a chunked file with an unreadable block ends the run with `GetFileBlocksFailed`. As written, the
  code would negotiate with the incomplete manifest instead (see Findings).

## Findings

| source | as written | input that shows it | evidently intended | confidence | as-written member | corrected member |
|---|---|---|---|---|---|---|
| internal/file/file.go:197-200 | when a block's read fails, getFileBlocks `continue`s and still returns the manifest without that block, with no error | a file of ChunkSize+1 bytes whose read at offset ChunkSize fails: the manifest is one entry of ChunkSize bytes, so its sizes add up to ChunkSize rather than ChunkSize+1 | chunking fails on the read error, so UploadFile stops with "get file blocks failed" (file.go:75-76) | not executed | Chunker.SkippedReadLosesBytes | Chunker.GetFileBlocksStrict |
