/**
 * The upload gate of social_insecurity/utils.py: an extension check on the
 * client's filename and a content check on the first bytes of the upload.
 * The allow-sets are parameters (the application's configuration supplies
 * them), and the libmagic content sniffer is an opaque function `sniff`.
 */
module Utils {
  import opened Wrappers
  import opened Text

  /** The text after the last '.', as `filename.rsplit('.', 1)[1]` yields it. */
  function Extension(filename: string): (ext: string)
    requires '.' in filename
    ensures |ext| < |filename|
    ensures filename[|filename| - |ext| - 1] == '.'
    ensures ext == filename[|filename| - |ext|..]
    ensures '.' !in ext
  {
    var i := LastIndexOf(filename, '.').value;
    filename[i + 1..]
  }

  /** `allowed_file`: the filename has a '.', and its last suffix, lower-cased, is allowed. */
  predicate AllowedFile(filename: string, allowedExtensions: set<string>)
  {
    '.' in filename && Lower(Extension(filename)) in allowedExtensions
  }

  /**
   * The shipped configuration's `ALLOWED_EXTENSIONS = {}`: an empty dict, whose
   * membership test is always false, written here as the empty set.
   */
  const ShippedExtensions: set<string> := {}

  /** Two dots that each have no dot after them are the same dot. */
  lemma LastDotUnique(s: string, i: nat, j: nat)
    requires i < |s| && j < |s|
    requires s[i] == '.' && '.' !in s[i + 1..]
    requires s[j] == '.' && '.' !in s[j + 1..]
    ensures i == j
  {
  }

  /** The extension of `stem.ext` is `ext` whenever `ext` holds no dot, whatever dots `stem` holds. */
  lemma ExtensionOfJoin(stem: string, ext: string)
    requires '.' !in ext
    ensures '.' in stem + "." + ext
    ensures Extension(stem + "." + ext) == ext
  {
    var f := stem + "." + ext;
    assert f[|stem|] == '.';
    assert f[|stem| + 1..] == ext;
    var e := Extension(f);
    LastDotUnique(f, |stem|, |f| - |e| - 1);
  }

  /** `allowed_file` holds exactly when some '.' has no '.' after it and the text after it, lower-cased, is allowed. */
  lemma AllowedFileCharacterized(filename: string, allowedExtensions: set<string>)
    ensures AllowedFile(filename, allowedExtensions) <==>
      exists k :: 0 <= k < |filename| && filename[k] == '.' && '.' !in filename[k + 1..]
        && Lower(filename[k + 1..]) in allowedExtensions
  {
    if '.' in filename {
      var e := Extension(filename);
      var i := |filename| - |e| - 1;
      assert filename[i + 1..] == e;
      forall k | 0 <= k < |filename| && filename[k] == '.' && '.' !in filename[k + 1..]
        ensures k == i
      {
        LastDotUnique(filename, k, i);
      }
    }
  }

  /** A filename without a '.' is rejected, whatever the allow-set. */
  lemma NoDotRejected(filename: string, allowedExtensions: set<string>)
    requires '.' !in filename
    ensures !AllowedFile(filename, allowedExtensions)
  {
  }

  /** Only the last suffix counts: `stem.ext` is judged by `ext` alone. */
  lemma JudgedByLastSuffix(stem: string, ext: string, allowedExtensions: set<string>)
    requires '.' !in ext
    ensures AllowedFile(stem + "." + ext, allowedExtensions) <==> Lower(ext) in allowedExtensions
  {
    ExtensionOfJoin(stem, ext);
  }

  /** `shell.png.exe` is judged by `exe`, never by `png`. */
  lemma DoubleExtensionJudgedByLast(allowedExtensions: set<string>)
    ensures AllowedFile("shell.png.exe", allowedExtensions) <==> "exe" in allowedExtensions
  {
    assert "shell.png.exe" == "shell.png" + "." + "exe";
    JudgedByLastSuffix("shell.png", "exe", allowedExtensions);
    assert Lower("exe") == "exe";
  }

  /** A trailing '.' leaves the empty extension, which passes only if "" is allowed. */
  lemma TrailingDotMeansEmptyExtension(stem: string, allowedExtensions: set<string>)
    ensures AllowedFile(stem + ".", allowedExtensions) <==> "" in allowedExtensions
  {
    assert stem + "." == stem + "." + "";
    JudgedByLastSuffix(stem, "", allowedExtensions);
  }

  /** The check ignores case: lower-casing the whole filename first changes nothing. */
  lemma CaseInsensitive(filename: string, allowedExtensions: set<string>)
    ensures AllowedFile(Lower(filename), allowedExtensions) == AllowedFile(filename, allowedExtensions)
  {
    var low := Lower(filename);
    LowerKeepsDots(filename);
    if '.' in filename {
      var e := Extension(filename);
      var i := |filename| - |e| - 1;
      LowerSuffix(filename, i + 1);
      LowerKeepsDots(e);
      var le := Extension(low);
      LastDotUnique(low, i, |low| - |le| - 1);
      LowerIdempotent(e);
    }
  }

  /** An upper-case extension passes when its lower-case spelling is allowed. */
  lemma UpperCaseExtensionAccepted()
    ensures AllowedFile("photo.PNG", {"png"})
  {
    assert "photo.PNG" == "photo" + "." + "PNG";
    JudgedByLastSuffix("photo", "PNG", {"png"});
    assert Lower("PNG") == "png";
  }

  /** With the shipped empty allow-set, no filename passes. */
  lemma ShippedConfigRejectsEveryFile(filename: string)
    ensures !AllowedFile(filename, ShippedExtensions)
  {
  }

  /** How many bytes `allowed_mime_type` hands to the sniffer. */
  const SniffLength: nat := 1024

  /** The bytes `read(size)` returns from position `from`: at most `size`, none past the end. */
  function Window(data: seq<bv8>, from: nat, size: nat): (w: seq<bv8>)
    ensures |w| <= size
    ensures from + |w| <= |data| || w == []
    ensures from <= |data| ==> w == data[from..from + |w|]
    ensures from + size <= |data| ==> |w| == size
    ensures from + size > |data| ==> from + |w| >= |data|
  {
    if from >= |data| then []
    else if from + size <= |data| then data[from..from + size]
    else data[from..]
  }

  /**
   * An upload's byte stream, as the request hands it over: fixed contents and
   * a read position that `Seek` and `Read` move.
   */
  class FileStream {
    const data: seq<bv8>
    var pos: nat

    constructor (data: seq<bv8>)
      ensures this.data == data && pos == 0
    {
      this.data := data;
      pos := 0;
    }

    /** `seek(offset)`. */
    method Seek(offset: nat)
      modifies this`pos
      ensures pos == offset
    {
      pos := offset;
    }

    /** `read(size)`: up to `size` bytes from the position, which moves past them. */
    method Read(size: nat) returns (chunk: seq<bv8>)
      modifies this`pos
      ensures chunk == Window(data, old(pos), size)
      ensures pos == old(pos) + |chunk|
    {
      chunk := Window(data, pos, size);
      pos := pos + |chunk|;
    }
  }

  /** The first bytes of an upload, the only ones the sniffer sees. */
  function SniffedPrefix(data: seq<bv8>): (head: seq<bv8>)
    ensures head <= data
    ensures |head| == if |data| < SniffLength then |data| else SniffLength
  {
    Window(data, 0, SniffLength)
  }

  /** The MIME verdict on an upload's contents. */
  predicate MimeAllowed(data: seq<bv8>, sniff: seq<bv8> -> string, allowedMimeTypes: set<string>)
  {
    sniff(SniffedPrefix(data)) in allowedMimeTypes
  }

  /**
   * `allowed_mime_type`: rewinds, sniffs the first 1024 bytes, rewinds again,
   * and accepts when the sniffed type is allowed.
   */
  method AllowedMimeType(stream: FileStream, sniff: seq<bv8> -> string, allowedMimeTypes: set<string>)
    returns (ok: bool)
    modifies stream`pos
    ensures stream.pos == 0
    ensures ok <==> sniff(SniffedPrefix(stream.data)) in allowedMimeTypes
  {
    stream.Seek(0);
    var head := stream.Read(SniffLength);
    var mimeType := sniff(head);
    stream.Seek(0);
    ok := mimeType in allowedMimeTypes;
  }

  /** Bytes past the first 1024 cannot change the MIME verdict. */
  lemma VerdictIgnoresTail(head: seq<bv8>, tail: seq<bv8>, sniff: seq<bv8> -> string, allowedMimeTypes: set<string>)
    requires |head| >= SniffLength
    ensures MimeAllowed(head + tail, sniff, allowedMimeTypes) == MimeAllowed(head, sniff, allowedMimeTypes)
  {
    assert SniffedPrefix(head + tail) == head[..SniffLength] == SniffedPrefix(head);
  }
}
