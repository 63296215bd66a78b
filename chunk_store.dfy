/**
 * Chunked file storage on a Telegram channel (telegram_utils.py).
 *
 * `TelegramStorage.upload_file` reads a local file through one sequential
 * handle in pieces of at most `int(MAX_CHUNK_SIZE)` bytes, sends each piece
 * to the channel as a document and records the returned `file_id`s, in chunk
 * order, in a manifest. `download_file` fetches the documents named by a list
 * of ids and writes their concatenation to an output file.
 *
 * The Telegram channel is a map from fresh ids to the documents it holds; the
 * answer of each `send_document` request is an input. The local file system is
 * a map from paths to byte strings.
 */
module ChunkStore {
  import opened Wrappers
  import opened Strings

  type Byte = bv8

  /** `int(MAX_CHUNK_SIZE)`: how many bytes each read of the source file asks for. */
  const MaxChunkSize: nat := 2040109465

  /**
   * `MAX_CHUNK_SIZE = 1.9 * 1024 * 1024 * 1024` as the double Python computes:
   * the double nearest 1.9, scaled exactly by 2^30.
   */
  const FloatMaxChunkSize: real := 4278419646001971.0 / 2097152.0

  /** An opaque Telegram `file_id`; the channel hands out a fresh one per stored document. */
  datatype FileId = FileId(serial: nat)

  /** A document as the channel keeps it: its bytes, caption and file name. */
  datatype Document = Document(data: seq<Byte>, caption: string, filename: string)

  /** What the Bot API does with one `send_document` request. */
  datatype SendOutcome =
    | Delivered      // the message carries the stored document
    | NoDocument     // a message came back without a document
    | Refused        // the request raised TelegramError

  datatype Error =
    | FileNotFound       // FileNotFoundError: the source path does not exist
    | MissingDocument    // ValueError: the reply carried no document
    | TelegramError      // an error raised by the Bot API
    | NoChunkIds         // ValueError: download_file was given no ids

  /** The dict upload_file returns: original_filename, original_size, chunks, chunk_file_ids. */
  datatype Manifest = Manifest(originalFilename: string, originalSize: nat, chunks: nat, chunkFileIds: seq<FileId>)

  // ---------------------------------------------------------------------------
  // Chunk planning

  /** The number of chunks for `n` bytes read `m` at a time: the integer ceiling of n / m. */
  function ChunkCount(n: nat, m: nat): (c: nat)
    requires m > 0
    ensures (c - 1) * m < n <= c * m
    ensures c == 0 <==> n == 0
  {
    var q := (n + m - 1) / m;
    assert n + m - 1 == q * m + (n + m - 1) % m;
    assert (q - 1) * m == q * m - m;
    q
  }

  /** The bytes of chunk `i`: the `i`-th read of `m` bytes from the start of `data`. */
  function ChunkBytes(data: seq<Byte>, m: nat, i: nat): seq<Byte> {
    data[Min(i * m, |data|)..Min((i + 1) * m, |data|)]
  }

  /** The first `k` chunks of `data`, in order. */
  function Chunks(data: seq<Byte>, m: nat, k: nat): (cs: seq<seq<Byte>>)
    ensures |cs| == k
  {
    seq(k, i requires 0 <= i < k => ChunkBytes(data, m, i))
  }

  /** The bytes obtained by writing `parts` one after another into one stream. */
  function Concat(parts: seq<seq<Byte>>): seq<Byte> {
    if parts == [] then [] else Concat(parts[..|parts| - 1]) + parts[|parts| - 1]
  }

  /** The first `k` chunks together are exactly the first min(k*m, n) bytes of the file. */
  lemma {:induction false} ChunksArePrefix(data: seq<Byte>, m: nat, k: nat)
    ensures Concat(Chunks(data, m, k)) == data[..Min(k * m, |data|)]
  {
    if k > 0 {
      var cs := Chunks(data, m, k);
      assert cs[..k - 1] == Chunks(data, m, k - 1);
      ChunksArePrefix(data, m, k - 1);
      assert (k - 1 + 1) * m == (k - 1) * m + m;
      var lo, hi := Min((k - 1) * m, |data|), Min(k * m, |data|);
      assert lo <= hi;
      assert data[..lo] + data[lo..hi] == data[..hi];
    }
  }

  /** With the integer chunk size, the chunks of a file reassemble into the file. */
  lemma ChunksCoverFile(data: seq<Byte>, m: nat)
    requires m > 0
    ensures Concat(Chunks(data, m, ChunkCount(|data|, m))) == data
  {
    ChunksArePrefix(data, m, ChunkCount(|data|, m));
    assert data[..|data|] == data;
  }

  lemma MulMonotone(a: nat, b: nat, m: nat)
    requires a <= b
    ensures a * m <= b * m
  {
  }

  /** Every chunk but the last is full, and the last holds the remaining n - (c-1)*m bytes, at least one. */
  lemma ChunkLengths(data: seq<Byte>, m: nat, i: nat)
    requires m > 0 && i < ChunkCount(|data|, m)
    ensures i < ChunkCount(|data|, m) - 1 ==> |ChunkBytes(data, m, i)| == m
    ensures i == ChunkCount(|data|, m) - 1 ==> |ChunkBytes(data, m, i)| == |data| - i * m > 0
  {
    var c, n := ChunkCount(|data|, m), |data|;
    assert (i + 1) * m == i * m + m;
    MulMonotone(i, c - 1, m);
    if i < c - 1 {
      MulMonotone(i + 1, c - 1, m);
    }
  }

  lemma MulStep(a: nat, b: nat, m: nat)
    ensures a < b ==> a * m + m <= b * m
  {
    if a < b {
      MulMonotone(a + 1, b, m);
      assert (a + 1) * m == a * m + m;
    }
  }

  lemma DivUnique(x: nat, m: nat, q: nat, r: nat)
    requires m > 0 && x == q * m + r && r < m
    ensures x / m == q
  {
    var q', r' := x / m, x % m;
    assert x == q' * m + r';
    MulStep(q', q, m);
    MulStep(q, q', m);
  }

  /** The chunk count is the quotient, plus one when there is a remainder. */
  lemma ChunkCountOfDivision(n: nat, m: nat, q: nat, r: nat)
    requires m > 0 && n == q * m + r && r < m
    ensures r == 0 ==> ChunkCount(n, m) == q
    ensures r > 0 ==> ChunkCount(n, m) == q + 1
  {
    if r == 0 {
      DivUnique(n + m - 1, m, q, m - 1);
    } else {
      assert n + m - 1 == (q + 1) * m + (r - 1);
      DivUnique(n + m - 1, m, q + 1, r - 1);
    }
  }

  lemma MulPred(q: nat, m: nat)
    requires q >= 1
    ensures (q - 1) * m == q * m - m
  {
  }

  /** The last chunk of a non-empty file holds n mod m bytes, or m bytes when m divides n. */
  lemma LastChunkLength(data: seq<Byte>, m: nat)
    requires m > 0 && |data| > 0
    ensures |ChunkBytes(data, m, ChunkCount(|data|, m) - 1)| == if |data| % m == 0 then m else |data| % m
  {
    var n, q, r := |data|, |data| / m, |data| % m;
    assert n == q * m + r;
    ChunkCountOfDivision(n, m, q, r);
    ChunkLengths(data, m, ChunkCount(n, m) - 1);
    if r == 0 {
      MulPred(q, m);
    }
  }

  /** Reading `m` more bytes at the end of the first `k` chunks yields chunk `k`. */
  lemma NextRead(data: seq<Byte>, m: nat, k: nat, pos: nat)
    requires pos == Min(k * m, |data|)
    ensures data[pos..Min(pos + m, |data|)] == ChunkBytes(data, m, k)
    ensures Min(pos + m, |data|) == Min((k + 1) * m, |data|)
  {
    assert (k + 1) * m == k * m + m;
  }

  /** Chunk `i` holds bytes [i*m, min((i+1)*m, n)) of the file. */
  lemma ChunkRange(data: seq<Byte>, m: nat, i: nat, j: nat)
    requires m > 0 && i < ChunkCount(|data|, m) && j < |ChunkBytes(data, m, i)|
    ensures ChunkBytes(data, m, i)[j] == data[i * m + j]
  {
    ChunkLengths(data, m, i);
  }

  /** A 5,000,000-byte file read 2,000,000 bytes at a time: three chunks of 2,000,000, 2,000,000 and 1,000,000 bytes. */
  lemma FiveMegabyteExample(data: seq<Byte>)
    requires |data| == 5000000
    ensures ChunkCount(|data|, 2000000) == 3
    ensures |ChunkBytes(data, 2000000, 0)| == 2000000
    ensures |ChunkBytes(data, 2000000, 1)| == 2000000
    ensures |ChunkBytes(data, 2000000, 2)| == 1000000
    ensures Concat(Chunks(data, 2000000, 3)) == data
  {
    ChunksCoverFile(data, 2000000);
  }

  // ---------------------------------------------------------------------------
  // The chunk count as written, with the float constant

  /** Python's `math.ceil` on a real. */
  function Ceil(x: real): (r: int)
    ensures x <= r as real < x + 1.0
  {
    -((-x).Floor)
  }

  /** `math.ceil(file_size / MAX_CHUNK_SIZE)` with the float MAX_CHUNK_SIZE (division rounding ignored). */
  function AsWrittenChunkCount(n: nat): (c: nat)
  {
    Ceil(n as real / FloatMaxChunkSize)
  }

  /** The float count never exceeds the integer count, so reads never run past what is needed. */
  lemma AsWrittenCountAtMost(n: nat)
    ensures AsWrittenChunkCount(n) <= ChunkCount(n, MaxChunkSize)
  {
    var c := ChunkCount(n, MaxChunkSize);
    assert (c as real) * (MaxChunkSize as real) >= n as real;
    assert (c as real) * FloatMaxChunkSize >= (c as real) * (MaxChunkSize as real);
    assert n as real / FloatMaxChunkSize <= c as real;
  }

  /**
   * For a file of 2 * int(MAX_CHUNK_SIZE) + 1 bytes the float count is 2, so the
   * upload reads and stores only the first 2 * int(MAX_CHUNK_SIZE) bytes and the
   * last byte is lost.
   */
  lemma AsWrittenCountDropsLastByte()
    ensures AsWrittenChunkCount(2 * MaxChunkSize + 1) == 2
    ensures ChunkCount(2 * MaxChunkSize + 1, MaxChunkSize) == 3
    ensures AsWrittenChunkCount(2 * MaxChunkSize + 1) * MaxChunkSize < 2 * MaxChunkSize + 1
  {
    var n := 2 * MaxChunkSize + 1;
    var x := n as real / FloatMaxChunkSize;
    assert 1.0 < x <= 2.0;
    assert (-x).Floor == -2;
  }

  /** What an as-written upload of `data` stores is the prefix the float count covers. */
  lemma AsWrittenUploadStoresPrefix(data: seq<Byte>)
    ensures var k := AsWrittenChunkCount(|data|);
      Concat(Chunks(data, MaxChunkSize, k)) == data[..Min(k * MaxChunkSize, |data|)]
  {
    ChunksArePrefix(data, MaxChunkSize, AsWrittenChunkCount(|data|));
  }

  // ---------------------------------------------------------------------------
  // Captions and chunk file names

  /** The caption of chunk `n`: the custom caption on chunk 0 when it is non-empty, otherwise "Chunk {n}". */
  function ChunkCaption(n: nat, customCaption: Option<string>): string {
    if n == 0 && customCaption.Some? && customCaption.value != "" then customCaption.value
    else "Chunk " + Decimal(n)
  }

  /** The document name of chunk `n`: "chunk_{n}.bin". */
  function ChunkFilename(n: nat): string {
    "chunk_" + Decimal(n) + ".bin"
  }

  lemma InfixCancel(p: string, x: string, y: string, q: string)
    requires p + x + q == p + y + q
    ensures x == y
  {
    assert x == (p + x + q)[|p|..|p| + |x|];
    assert y == (p + y + q)[|p|..|p| + |y|];
  }

  /** Distinct chunks get distinct document names. */
  lemma ChunkFilenamesDistinct(m: nat, n: nat)
    requires m != n
    ensures ChunkFilename(m) != ChunkFilename(n)
  {
    if ChunkFilename(m) == ChunkFilename(n) {
      InfixCancel("chunk_", Decimal(m), Decimal(n), ".bin");
      DecimalInjective(m, n);
    }
  }

  /** Only chunk 0 can carry the custom caption; chunk n > 0 is always captioned "Chunk {n}", and such captions are distinct. */
  lemma ChunkCaptionsDistinct(m: nat, n: nat, custom: Option<string>)
    requires 0 < m && m != n
    ensures ChunkCaption(m, custom) == "Chunk " + Decimal(m)
    ensures n > 0 ==> ChunkCaption(m, custom) != ChunkCaption(n, custom)
  {
    if n > 0 && ChunkCaption(m, custom) == ChunkCaption(n, custom) {
      InfixCancel("Chunk ", Decimal(m), Decimal(n), "");
      DecimalInjective(m, n);
    }
  }

  /** The document upload_file stores for chunk `i` of `data`. */
  function ChunkDocument(data: seq<Byte>, m: nat, i: nat, customCaption: Option<string>): Document {
    Document(ChunkBytes(data, m, i), ChunkCaption(i, customCaption), ChunkFilename(i))
  }

  /**
   * The channel's documents once chunks 0 .. k-1 of `data` have been stored on
   * top of `docs`, chunk i under the serial s + i.
   */
  function Uploaded(docs: map<FileId, Document>, s: nat, data: seq<Byte>, m: nat, customCaption: Option<string>, k: nat)
    : map<FileId, Document>
  {
    if k == 0 then docs
    else Uploaded(docs, s, data, m, customCaption, k - 1)[FileId(s + k - 1) := ChunkDocument(data, m, k - 1, customCaption)]
  }

  /** The ids the channel hands out for `k` documents stored from the serial `s` on. */
  function Serials(s: nat, k: nat): (ids: seq<FileId>)
    ensures |ids| == k
  {
    if k == 0 then [] else Serials(s, k - 1) + [FileId(s + k - 1)]
  }

  lemma {:induction false} SerialsAt(s: nat, k: nat)
    ensures forall i :: 0 <= i < k ==> Serials(s, k)[i] == FileId(s + i)
  {
    if k > 0 {
      SerialsAt(s, k - 1);
    }
  }

  /** Storing one more chunk adds chunk k under the serial s + k. */
  lemma UploadedStep(docs: map<FileId, Document>, s: nat, data: seq<Byte>, m: nat, customCaption: Option<string>, k: nat)
    ensures Uploaded(docs, s, data, m, customCaption, k + 1)
      == Uploaded(docs, s, data, m, customCaption, k)[FileId(s + k) := ChunkDocument(data, m, k, customCaption)]
  {
  }

  /**
   * One turn of the upload loop: after reading chunk k at `pos` and storing it
   * under the next serial, the documents, ids and read position are those of
   * k + 1 chunks.
   */
  lemma SendStep(docs: map<FileId, Document>, s: nat, data: seq<Byte>, m: nat, customCaption: Option<string>, k: nat,
                 pos: nat, ids: seq<FileId>, before: map<FileId, Document>, after: map<FileId, Document>, id: FileId)
    requires before == Uploaded(docs, s, data, m, customCaption, k) && ids == Serials(s, k)
    requires pos == Min(k * m, |data|) && pos <= Min(pos + m, |data|) && id == FileId(s + k)
    requires after == before[id := Document(data[pos..Min(pos + m, |data|)],
                                            ChunkCaption(k, if k == 0 then customCaption else None), ChunkFilename(k))]
    ensures after == Uploaded(docs, s, data, m, customCaption, k + 1)
    ensures ids + [id] == Serials(s, k + 1)
    ensures Min(pos + m, |data|) == Min((k + 1) * m, |data|)
  {
    NextRead(data, m, k, pos);
    assert ChunkCaption(k, if k == 0 then customCaption else None) == ChunkCaption(k, customCaption);
    UploadedStep(docs, s, data, m, customCaption, k);
  }

  /**
   * Storing k chunks under fresh serials adds exactly the k new ids, keeps every
   * earlier document and puts chunk i under the serial s + i.
   */
  lemma UploadedContents(docs: map<FileId, Document>, s: nat, data: seq<Byte>, m: nat,
                                            customCaption: Option<string>, k: nat)
    requires forall id :: id in docs ==> id.serial < s
    ensures forall id :: id in Uploaded(docs, s, data, m, customCaption, k) <==> id in docs || s <= id.serial < s + k
    ensures forall id :: id in docs ==>
      id in Uploaded(docs, s, data, m, customCaption, k) && Uploaded(docs, s, data, m, customCaption, k)[id] == docs[id]
    ensures forall i :: 0 <= i < k ==>
      && FileId(s + i) !in docs
      && FileId(s + i) in Uploaded(docs, s, data, m, customCaption, k)
      && Uploaded(docs, s, data, m, customCaption, k)[FileId(s + i)] == ChunkDocument(data, m, i, customCaption)
  {
    forall id
      ensures id in Uploaded(docs, s, data, m, customCaption, k) <==> id in docs || s <= id.serial < s + k
      ensures id in docs ==>
        id in Uploaded(docs, s, data, m, customCaption, k) && Uploaded(docs, s, data, m, customCaption, k)[id] == docs[id]
    {
      UploadedAt(docs, s, data, m, customCaption, k, id);
    }
    forall i | 0 <= i < k
      ensures Uploaded(docs, s, data, m, customCaption, k)[FileId(s + i)] == ChunkDocument(data, m, i, customCaption)
    {
      UploadedAt(docs, s, data, m, customCaption, k, FileId(s + i));
    }
  }

  /** Where one id stands after k chunks were stored: a new chunk, an earlier document, or absent. */
  lemma {:induction false} UploadedAt(docs: map<FileId, Document>, s: nat, data: seq<Byte>, m: nat,
                                      customCaption: Option<string>, k: nat, id: FileId)
    ensures id in Uploaded(docs, s, data, m, customCaption, k) <==> id in docs || s <= id.serial < s + k
    ensures s <= id.serial < s + k ==>
      Uploaded(docs, s, data, m, customCaption, k)[id] == ChunkDocument(data, m, id.serial - s, customCaption)
    ensures id in docs && !(s <= id.serial < s + k) ==> Uploaded(docs, s, data, m, customCaption, k)[id] == docs[id]
  {
    if k > 0 {
      UploadedAt(docs, s, data, m, customCaption, k - 1, id);
      UploadedStep(docs, s, data, m, customCaption, k - 1);
      if id.serial == s + k - 1 {
        assert id == FileId(s + (k - 1));
      }
    }
  }

  /** The bytes stored under each id, in the order of `ids`. */
  function Contents(documents: map<FileId, Document>, ids: seq<FileId>): (parts: seq<seq<Byte>>)
    requires forall i :: 0 <= i < |ids| ==> ids[i] in documents
    ensures |parts| == |ids|
  {
    seq(|ids|, i requires 0 <= i < |ids| => documents[ids[i]].data)
  }

  /** `os.path.basename`: the text after the last '/'. */
  function Basename(path: string): (name: string)
    ensures EndsWith(path, name) && '/' !in name
    ensures '/' in path ==> EndsWith(path, "/" + name)
    ensures '/' !in path ==> name == path
  {
    ContainsChar(path, '/');
    var parts := Split(path, "/");
    SplitRejoins(path, "/");
    LastPieceIsSuffix(parts, "/");
    ContainsChar(Last(parts), '/');
    Last(parts)
  }

  /** The answers to the first `k` chunk uploads all delivered a document. */
  ghost predicate AllDelivered(outcomes: nat -> SendOutcome, k: nat) {
    forall i :: 0 <= i < k ==> outcomes(i) == Delivered
  }

  lemma AllDeliveredStep(outcomes: nat -> SendOutcome, k: nat, outcome: SendOutcome)
    requires AllDelivered(outcomes, k) && outcome == outcomes(k) == Delivered
    ensures AllDelivered(outcomes, k + 1)
  {
  }

  /** The first chunk whose upload is not delivered, if any among the first `c`. */
  ghost predicate FirstFailure(outcomes: nat -> SendOutcome, c: nat, f: nat) {
    f < c && outcomes(f) != Delivered && forall i :: 0 <= i < f ==> outcomes(i) == Delivered
  }

  /** The first chunk among the first `c` whose upload is not delivered, or `c` when all of them are. */
  ghost function FirstUndelivered(outcomes: nat -> SendOutcome, c: nat): (f: nat)
    ensures f <= c
    ensures f == c <==> AllDelivered(outcomes, c)
    ensures f < c ==> FirstFailure(outcomes, c, f)
  {
    if c == 0 then 0
    else if FirstUndelivered(outcomes, c - 1) < c - 1 then FirstUndelivered(outcomes, c - 1)
    else if outcomes(c - 1) == Delivered then c
    else c - 1
  }

  /** There is only one first failure. */
  lemma FirstUndeliveredIs(outcomes: nat -> SendOutcome, c: nat, f: nat)
    requires FirstFailure(outcomes, c, f)
    ensures FirstUndelivered(outcomes, c) == f && !AllDelivered(outcomes, c)
  {
    var g := FirstUndelivered(outcomes, c);
    assert g != c by {
      assert !AllDelivered(outcomes, c);
    }
    assert FirstFailure(outcomes, c, g);
  }

  function ErrorOf(outcome: SendOutcome): Error {
    if outcome == NoDocument then MissingDocument else TelegramError
  }

  // ---------------------------------------------------------------------------
  // The channel and the local disk

  /** The Telegram channel the bot posts to, as a store of documents under fresh ids. */
  class Channel {
    var documents: map<FileId, Document>
    var nextSerial: nat

    ghost predicate Valid()
      reads this
    {
      forall id :: id in documents ==> id.serial < nextSerial
    }

    constructor ()
      ensures Valid() && documents == map[] && nextSerial == 0
    {
      documents := map[];
      nextSerial := 0;
    }

    /** `bot.send_document`: the reply's document id, `None` for a reply without one. */
    method SendDocument(data: seq<Byte>, caption: string, filename: string, outcome: SendOutcome)
      returns (r: Result<Option<FileId>, Error>)
      requires Valid()
      modifies this
      ensures Valid()
      ensures outcome == Delivered ==>
        && r == Ok(Some(FileId(old(nextSerial))))
        && old(FileId(nextSerial)) !in old(documents)
        && documents == old(documents)[FileId(old(nextSerial)) := Document(data, caption, filename)]
        && nextSerial == old(nextSerial) + 1
      ensures outcome == NoDocument ==> r == Ok(None) && unchanged(this)
      ensures outcome == Refused ==> r == Err(TelegramError) && unchanged(this)
    {
      match outcome
      case Delivered =>
        var id := FileId(nextSerial);
        documents := documents[id := Document(data, caption, filename)];
        nextSerial := nextSerial + 1;
        r := Ok(Some(id));
      case NoDocument =>
        r := Ok(None);
      case Refused =>
        r := Err(TelegramError);
    }

    /** `bot.get_file(file_id)` followed by `download_to_drive`: the stored bytes, or an error for an unknown id. */
    method GetFile(id: FileId) returns (r: Result<seq<Byte>, Error>)
      ensures r == if id in documents then Ok(documents[id].data) else Err(TelegramError)
    {
      if id in documents {
        r := Ok(documents[id].data);
      } else {
        r := Err(TelegramError);
      }
    }
  }

  /** The local file system: the bytes of each existing path. */
  class Disk {
    var files: map<string, seq<Byte>>

    constructor (files: map<string, seq<Byte>>)
      ensures this.files == files
    {
      this.files := files;
    }
  }

  // ---------------------------------------------------------------------------
  // Upload and download

  class TelegramStorage {
    const channel: Channel
    /** The size of each read of the source file: `int(MAX_CHUNK_SIZE)` in the source. */
    const chunkSize: nat

    ghost predicate Valid()
      reads this, channel
    {
      chunkSize > 0 && channel.Valid()
    }

    constructor (channel: Channel, chunkSize: nat)
      requires channel.Valid() && chunkSize > 0
      ensures Valid() && this.channel == channel && this.chunkSize == chunkSize
    {
      this.channel := channel;
      this.chunkSize := chunkSize;
    }

    /** `_upload_chunk`: send one chunk with its caption and name and return the new file_id. */
    method UploadChunk(data: seq<Byte>, chunkNumber: nat, customCaption: Option<string>, outcome: SendOutcome)
      returns (r: Result<FileId, Error>)
      requires Valid()
      modifies channel
      ensures Valid()
      ensures r.Ok? <==> outcome == Delivered
      ensures r.Err? ==> r.error == ErrorOf(outcome) && unchanged(channel)
      ensures r.Ok? ==>
        && r.value == FileId(old(channel.nextSerial))
        && r.value !in old(channel.documents)
        && channel.documents == old(channel.documents)[r.value :=
             Document(data, ChunkCaption(chunkNumber, customCaption), ChunkFilename(chunkNumber))]
        && channel.nextSerial == old(channel.nextSerial) + 1
    {
      var caption := ChunkCaption(chunkNumber, customCaption);
      var message := channel.SendDocument(data, caption, ChunkFilename(chunkNumber), outcome);
      match message
      case Err(e) => r := Err(e);
      case Ok(None) => r := Err(MissingDocument);
      case Ok(Some(id)) => r := Ok(id);
    }

    /**
     * The loop of `upload_file`: read `data` chunk by chunk through one handle,
     * upload each chunk (answer `outcomes(i)` for chunk `i`) and collect the ids.
     * A failed upload ends the loop; the chunks sent before it stay on the channel.
     */
    method SendChunks(data: seq<Byte>, customCaption: Option<string>, outcomes: nat -> SendOutcome)
      returns (r: Result<seq<FileId>, Error>)
      requires Valid()
      modifies channel
      ensures Valid()
      ensures r.Ok? <==> AllDelivered(outcomes, ChunkCount(|data|, chunkSize))
      ensures r.Err? ==>
        && r.error == ErrorOf(outcomes(FirstUndelivered(outcomes, ChunkCount(|data|, chunkSize))))
        && channel.documents == Uploaded(old(channel.documents), old(channel.nextSerial), data, chunkSize, customCaption,
                                         FirstUndelivered(outcomes, ChunkCount(|data|, chunkSize)))
        && channel.nextSerial == old(channel.nextSerial) + FirstUndelivered(outcomes, ChunkCount(|data|, chunkSize))
      ensures r.Ok? ==>
        && r.value == Serials(old(channel.nextSerial), ChunkCount(|data|, chunkSize))
        && channel.documents == Uploaded(old(channel.documents), old(channel.nextSerial), data, chunkSize, customCaption, |r.value|)
        && channel.nextSerial == old(channel.nextSerial) + |r.value|
    {
      var numChunks := ChunkCount(|data|, chunkSize);
      ghost var docs0, serial0 := channel.documents, channel.nextSerial;
      var ids: seq<FileId> := [];
      var pos := 0;
      var k := 0;
      while k < numChunks
        invariant 0 <= k <= numChunks
        invariant pos == Min(k * chunkSize, |data|)
        invariant ids == Serials(serial0, k)
        invariant Valid() && channel.nextSerial == serial0 + k
        invariant channel.documents == Uploaded(docs0, serial0, data, chunkSize, customCaption, k)
        invariant AllDelivered(outcomes, k)
      {
        // file.read(chunk_size): up to chunk_size bytes from the current position
        var next := Min(pos + chunkSize, |data|);
        var chunk := data[pos..next];
        var outcome := outcomes(k);
        ghost var before := channel.documents;
        var id := UploadChunk(chunk, k, if k == 0 then customCaption else None, outcome);
        if id.Err? {
          assert FirstFailure(outcomes, numChunks, k);
          FirstUndeliveredIs(outcomes, numChunks, k);
          return Err(id.error);
        }
        AllDeliveredStep(outcomes, k, outcome);
        SendStep(docs0, serial0, data, chunkSize, customCaption, k, pos, ids, before, channel.documents, id.value);
        ids := ids + [id.value];
        pos := next;
        k := k + 1;
      }
      r := Ok(ids);
    }

    /**
     * `upload_file`: upload the file at `path` chunk by chunk and return its
     * manifest: name, size, chunk count and the ids in chunk order.
     */
    method UploadFile(disk: Disk, path: string, customCaption: Option<string>, outcomes: nat -> SendOutcome)
      returns (r: Result<Manifest, Error>)
      requires Valid()
      modifies channel
      ensures Valid()
      ensures path !in disk.files ==> r == Err(FileNotFound) && unchanged(channel)
      ensures path in disk.files ==>
        (r.Ok? <==> AllDelivered(outcomes, ChunkCount(|disk.files[path]|, chunkSize)))
      ensures path in disk.files && r.Err? ==>
        && r.error == ErrorOf(outcomes(FirstUndelivered(outcomes, ChunkCount(|disk.files[path]|, chunkSize))))
        && channel.documents == Uploaded(old(channel.documents), old(channel.nextSerial), disk.files[path], chunkSize,
                                         customCaption, FirstUndelivered(outcomes, ChunkCount(|disk.files[path]|, chunkSize)))
        && channel.nextSerial == old(channel.nextSerial) + FirstUndelivered(outcomes, ChunkCount(|disk.files[path]|, chunkSize))
      ensures path in disk.files && r.Ok? ==>
        && r.value.originalFilename == Basename(path)
        && r.value.originalSize == |disk.files[path]|
        && r.value.chunks == ChunkCount(|disk.files[path]|, chunkSize)
        && |r.value.chunkFileIds| == r.value.chunks
        && channel.documents == Uploaded(old(channel.documents), old(channel.nextSerial), disk.files[path], chunkSize, customCaption, r.value.chunks)
        && channel.nextSerial == old(channel.nextSerial) + r.value.chunks
        && (forall id :: id in channel.documents <==> id in old(channel.documents) || id in r.value.chunkFileIds)
        && forall i :: 0 <= i < r.value.chunks ==>
             && r.value.chunkFileIds[i] == FileId(old(channel.nextSerial) + i)
             && r.value.chunkFileIds[i] !in old(channel.documents)
             && r.value.chunkFileIds[i] in channel.documents
             && channel.documents[r.value.chunkFileIds[i]] == ChunkDocument(disk.files[path], chunkSize, i, customCaption)
      ensures forall id :: id in old(channel.documents) ==>
        id in channel.documents && channel.documents[id] == old(channel.documents)[id]
    {
      if path !in disk.files {
        return Err(FileNotFound);
      }
      var data := disk.files[path];
      ghost var docs0, serial0 := channel.documents, channel.nextSerial;
      var sent := SendChunks(data, customCaption, outcomes);
      if sent.Err? {
        UploadedContents(docs0, serial0, data, chunkSize, customCaption, FirstUndelivered(outcomes, ChunkCount(|data|, chunkSize)));
        return Err(sent.error);
      }
      var ids := sent.value;
      UploadedContents(docs0, serial0, data, chunkSize, customCaption, |ids|);
      SerialsAt(serial0, |ids|);
      forall id | id in channel.documents && id !in docs0 ensures id in ids {
        assert ids[id.serial - serial0] == id;
      }
      r := Ok(Manifest(Basename(path), |data|, |ids|, ids));
    }

    /**
     * `download_file`: fetch every chunk into a temporary file, in the order of
     * `chunkFileIds`, then write them one after another into `outputPath`.
     */
    method DownloadFile(chunkFileIds: seq<FileId>, outputPath: string, disk: Disk)
      returns (r: Result<string, Error>)
      requires Valid()
      modifies disk
      ensures chunkFileIds == [] ==> r == Err(NoChunkIds)
      ensures r.Ok? <==> chunkFileIds != [] && forall i :: 0 <= i < |chunkFileIds| ==> chunkFileIds[i] in channel.documents
      ensures r.Err? ==> r.error in {NoChunkIds, TelegramError} && disk.files == old(disk.files)
      ensures r.Ok? ==>
        && r.value == outputPath
        && disk.files == old(disk.files)[outputPath := Concat(Contents(channel.documents, chunkFileIds))]
    {
      if chunkFileIds == [] {
        return Err(NoChunkIds);
      }
      // Download all chunks (the temporary chunk files, in order).
      var fetched: seq<seq<Byte>> := [];
      var i := 0;
      while i < |chunkFileIds|
        invariant 0 <= i <= |chunkFileIds| && |fetched| == i
        invariant disk.files == old(disk.files)
        invariant forall j :: 0 <= j < i ==> chunkFileIds[j] in channel.documents
        invariant forall j :: 0 <= j < i ==> fetched[j] == channel.documents[chunkFileIds[j]].data
      {
        var chunk := channel.GetFile(chunkFileIds[i]);
        if chunk.Err? {
          return Err(chunk.error);
        }
        fetched := fetched + [chunk.value];
        i := i + 1;
      }
      assert fetched == Contents(channel.documents, chunkFileIds);
      // Merge the chunks into the output file.
      var output: seq<Byte> := [];
      var j := 0;
      while j < |fetched|
        invariant 0 <= j <= |fetched|
        invariant output == Concat(fetched[..j])
        invariant disk.files == old(disk.files)
      {
        assert fetched[..j + 1][..j] == fetched[..j];
        output := output + fetched[j];
        j := j + 1;
      }
      assert fetched[..j] == fetched;
      disk.files := disk.files[outputPath := output];
      r := Ok(outputPath);
    }
  }

  // ---------------------------------------------------------------------------
  // Round trip

  /**
   * Uploading a non-empty file through a channel that delivers every chunk and
   * downloading the returned ids reproduces the file byte for byte.
   */
  method UploadThenDownload(storage: TelegramStorage, disk: Disk, path: string, outputPath: string, caption: Option<string>)
    returns (manifest: Manifest)
    requires storage.Valid() && path in disk.files && |disk.files[path]| > 0
    modifies storage.channel, disk
    ensures manifest.originalSize == |old(disk.files[path])|
    ensures outputPath in disk.files && disk.files[outputPath] == old(disk.files[path])
  {
    var data := disk.files[path];
    var uploaded := storage.UploadFile(disk, path, caption, _ => Delivered);
    manifest := uploaded.value;
    var ids := manifest.chunkFileIds;
    var parts := Contents(storage.channel.documents, ids);
    assert parts == Chunks(data, storage.chunkSize, |ids|);
    ChunksCoverFile(data, storage.chunkSize);
    var downloaded := storage.DownloadFile(ids, outputPath, disk);
  }

  /** A zero-byte file uploads as zero chunks, and that empty id list cannot be downloaded. */
  method EmptyFileIsNotRestorable(storage: TelegramStorage, disk: Disk, path: string, outputPath: string)
    returns (manifest: Manifest, download: Result<string, Error>)
    requires storage.Valid() && path in disk.files && disk.files[path] == []
    modifies storage.channel, disk
    ensures manifest.chunks == 0 && manifest.chunkFileIds == []
    ensures download == Err(NoChunkIds) && disk.files == old(disk.files)
  {
    var uploaded := storage.UploadFile(disk, path, None, _ => Delivered);
    manifest := uploaded.value;
    download := storage.DownloadFile(manifest.chunkFileIds, outputPath, disk);
  }
}
