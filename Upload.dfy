/** The publish form (src/routes/upload.tsx): the checks made before anything
    is uploaded, the upload records built file by file, the tag list, and the
    hexadecimal form of a file's SHA-256 digest. */
module Upload {
  import opened Wrappers
  import opened JsStrings

  newtype Byte = x: int | 0 <= x < 256

  /** A file chosen in the form: its name, its path inside a chosen folder
      (empty for a single file), its size in bytes and its declared type
      (empty when unknown). */
  datatype FileInfo = FileInfo(name: string, relativePath: string, size: nat, mimeType: string)

  /** What is sent for each uploaded file. */
  datatype UploadRecord = UploadRecord(path: string, size: nat, storageId: string,
                                       sha256: string, contentType: Option<string>)

  /** The version published once every file is uploaded. */
  datatype PublishRequest = PublishRequest(slug: string, displayName: string, version: string,
                                           changelog: string, tags: seq<string>,
                                           files: seq<UploadRecord>)

  /** The largest bundle accepted: 50 MiB. */
  const MaxTotalBytes: int := 50 * 1024 * 1024

  const TooLargeMessage: string := "Total size exceeds 50MB per version."
  const MissingSkillMessage: string := "SKILL.md is required."
  const UploadingStatus: string := "Uploading files\U{2026}"
  const PublishingStatus: string := "Publishing version\U{2026}"
  const PublishedStatus: string := "Published."

  /** The sum of the file sizes. */
  function TotalBytes(files: seq<FileInfo>): (r: nat)
    ensures files == [] ==> r == 0
  {
    if files == [] then 0 else files[0].size + TotalBytes(files[1..])
  }

  /** The total of two lists of files is the sum of their totals. */
  lemma {:induction false} TotalBytesAppend(a: seq<FileInfo>, b: seq<FileInfo>)
    ensures TotalBytes(a + b) == TotalBytes(a) + TotalBytes(b)
  {
    if a != [] {
      assert (a + b)[1..] == a[1..] + b;
      TotalBytesAppend(a[1..], b);
    } else {
      assert a + b == b;
    }
  }

  /** No single file is larger than the total. */
  lemma {:induction false} FileSizeAtMostTotal(files: seq<FileInfo>, i: nat)
    requires i < |files|
    ensures files[i].size <= TotalBytes(files)
  {
    if i > 0 {
      FileSizeAtMostTotal(files[1..], i - 1);
    }
  }

  /** A file named `SKILL.md` or `SKILLS.md`, in any case. */
  predicate IsSkillFile(f: FileInfo)
    ensures IsSkillFile(f) ==> |f.name| == 8 || |f.name| == 9
    ensures f.name == "SKILL.md" || f.name == "SKILLS.md" ==> IsSkillFile(f)
  {
    LowerSkillName();
    LowerSkillsName();
    Lower(f.name) == "skill.md" || Lower(f.name) == "skills.md"
  }

  /** `SKILL.md` lower-cases to the first name the upload page compares with. */
  lemma LowerSkillName()
    ensures Lower("SKILL.md") == "skill.md"
  {
    var a := Lower("SKILL.md");
    assert a[0] == 's' && a[1] == 'k' && a[2] == 'i' && a[3] == 'l' && a[4] == 'l';
  }

  /** `SKILLS.md` lower-cases to the second name the upload page compares with. */
  lemma LowerSkillsName()
    ensures Lower("SKILLS.md") == "skills.md"
  {
    var b := Lower("SKILLS.md");
    assert b[0] == 's' && b[1] == 'k' && b[2] == 'i' && b[3] == 'l' && b[4] == 'l' && b[5] == 's';
  }

  predicate HasSkillFile(files: seq<FileInfo>) {
    exists f :: f in files && IsSkillFile(f)
  }

  /** The outcome of the checks, in the order they are made. */
  datatype SubmitCheck = NoFiles | TooLarge | MissingSkillFile | Ready

  /** The checks before upload: nothing happens without files, then the
      total size is checked, then the presence of a skill file. */
  function CheckSubmission(files: seq<FileInfo>): (r: SubmitCheck)
    ensures r == NoFiles <==> files == []
    ensures r == TooLarge <==> files != [] && TotalBytes(files) > MaxTotalBytes
    ensures r == MissingSkillFile <==>
              files != [] && TotalBytes(files) <= MaxTotalBytes && !HasSkillFile(files)
    ensures r == Ready <==>
              files != [] && TotalBytes(files) <= MaxTotalBytes && HasSkillFile(files)
  {
    if files == [] then NoFiles
    else if TotalBytes(files) > MaxTotalBytes then TooLarge
    else if !HasSkillFile(files) then MissingSkillFile
    else Ready
  }

  /** An oversize bundle reports only the size, whether or not it has a
      skill file, and a bundle of exactly 50 MiB passes the size check. */
  lemma SizeCheckedFirst(files: seq<FileInfo>)
    requires files != []
    ensures TotalBytes(files) > MaxTotalBytes ==> CheckSubmission(files) == TooLarge
    ensures TotalBytes(files) == MaxTotalBytes ==> CheckSubmission(files) != TooLarge
  {
  }

  /** Adding files to a bundle that is too large keeps it too large. */
  lemma TooLargeStaysTooLarge(files: seq<FileInfo>, more: seq<FileInfo>)
    requires CheckSubmission(files) == TooLarge
    ensures CheckSubmission(files + more) == TooLarge
  {
    TotalBytesAppend(files, more);
  }

  /** A bundle with one file over 50 MiB is refused for its size. */
  lemma OversizeFileRefused(files: seq<FileInfo>, i: nat)
    requires i < |files| && files[i].size > MaxTotalBytes
    ensures CheckSubmission(files) == TooLarge
  {
    FileSizeAtMostTotal(files, i);
  }

  /** The tags: the comma-separated pieces of the field, trimmed, blanks dropped. */
  function ParseTags(text: string): (r: seq<string>)
    ensures forall t :: t in r ==> t != [] && IsTrimmed(t) && ',' !in t
  {
    CommaList(text)
  }

  /** Clean tags written out with commas are read back unchanged. */
  lemma ParseTagsRoundTrip(tags: seq<string>)
    requires forall t :: t in tags ==> t != [] && IsTrimmed(t) && ',' !in t
    ensures ParseTags(Join(tags, ",")) == tags
  {
    CommaListRoundTrip(tags);
  }

  /** A lower-case hexadecimal digit. */
  predicate IsHexDigit(c: char) {
    ('0' <= c <= '9') || ('a' <= c <= 'f')
  }

  function HexDigit(n: int): (c: char)
    requires 0 <= n < 16
    ensures IsHexDigit(c)
  {
    if n < 10 then ('0' as int + n) as char else ('a' as int + n - 10) as char
  }

  function HexValue(c: char): (n: int)
    requires IsHexDigit(c)
    ensures 0 <= n < 16 && HexDigit(n) == c
  {
    if c <= '9' then c as int - '0' as int else c as int - 'a' as int + 10
  }

  /** `byte.toString(16).padStart(2, '0')`: two digits, high nibble first. */
  function ByteHex(b: Byte): (r: string)
    ensures |r| == 2 && IsHexDigit(r[0]) && IsHexDigit(r[1])
    ensures HexValue(r[0]) * 16 + HexValue(r[1]) == b as int
  {
    [HexDigit(b as int / 16), HexDigit(b as int % 16)]
  }

  /** The digest in hexadecimal, two digits per byte. */
  function HexEncode(bytes: seq<Byte>): (r: string)
    ensures |r| == 2 * |bytes|
    ensures forall i :: 0 <= i < |r| ==> IsHexDigit(r[i])
  {
    if bytes == [] then [] else ByteHex(bytes[0]) + HexEncode(bytes[1..])
  }

  /** Reads a string of hexadecimal digit pairs back into bytes. */
  function HexDecode(s: string): (r: seq<Byte>)
    requires |s| % 2 == 0
    requires forall i :: 0 <= i < |s| ==> IsHexDigit(s[i])
    ensures |r| * 2 == |s|
  {
    if s == [] then []
    else [(HexValue(s[0]) * 16 + HexValue(s[1])) as Byte] + HexDecode(s[2..])
  }

  /** Decoding the hexadecimal form gives the bytes back. */
  lemma {:induction false} HexRoundTrip(bytes: seq<Byte>)
    ensures HexDecode(HexEncode(bytes)) == bytes
  {
    if bytes != [] {
      var h := HexEncode(bytes);
      assert h == ByteHex(bytes[0]) + HexEncode(bytes[1..]);
      assert h[2..] == HexEncode(bytes[1..]);
      HexRoundTrip(bytes[1..]);
    }
  }

  /** Different digests have different hexadecimal forms. */
  lemma HexInjective(a: seq<Byte>, b: seq<Byte>)
    requires HexEncode(a) == HexEncode(b)
    ensures a == b
  {
    HexRoundTrip(a);
    HexRoundTrip(b);
  }

  /** The record for one file: its folder path when it has one, else its
      name; its type only when one is declared. */
  function RecordOf(f: FileInfo, storageId: string, digest: seq<Byte>): (r: UploadRecord)
    ensures r.path == if f.relativePath != [] then f.relativePath else f.name
    ensures r.contentType.None? <==> f.mimeType == []
    ensures r.contentType.Some? ==> r.contentType.value == f.mimeType
    ensures r.size == f.size && r.storageId == storageId
    ensures r.sha256 == HexEncode(digest) && |r.sha256| == 2 * |digest|
  {
    UploadRecord(
      if f.relativePath != [] then f.relativePath else f.name,
      f.size,
      storageId,
      HexEncode(digest),
      if f.mimeType != [] then Some(f.mimeType) else None)
  }

  /** The records of a bundle, one per file in file order. `storageIdOf`
      stands for the upload of the file and `digestOf` for its SHA-256. */
  function Records(files: seq<FileInfo>, storageIdOf: FileInfo -> string,
                   digestOf: FileInfo -> seq<Byte>): (r: seq<UploadRecord>)
    ensures |r| == |files|
    ensures forall i :: 0 <= i < |files| ==>
              r[i] == RecordOf(files[i], storageIdOf(files[i]), digestOf(files[i]))
  {
    seq(|files|, i requires 0 <= i < |files| =>
          RecordOf(files[i], storageIdOf(files[i]), digestOf(files[i])))
  }

  /** The upload loop: each file in turn is uploaded and hashed, and its
      record appended. */
  method UploadAll(files: seq<FileInfo>, storageIdOf: FileInfo -> string,
                   digestOf: FileInfo -> seq<Byte>) returns (uploaded: seq<UploadRecord>)
    ensures uploaded == Records(files, storageIdOf, digestOf)
  {
    uploaded := [];
    var i := 0;
    while i < |files|
      invariant 0 <= i <= |files|
      invariant |uploaded| == i
      invariant forall j :: 0 <= j < i ==>
                  uploaded[j] == RecordOf(files[j], storageIdOf(files[j]), digestOf(files[j]))
    {
      var f := files[i];
      var storageId := storageIdOf(f);
      var digest := digestOf(f);
      uploaded := uploaded + [RecordOf(f, storageId, digest)];
      i := i + 1;
    }
  }

  /** The message a failed check shows. */
  function CheckMessage(check: SubmitCheck): Option<string> {
    match check
    case TooLarge => Some(TooLargeMessage)
    case MissingSkillFile => Some(MissingSkillMessage)
    case _ => None
  }

  /** The form's state. */
  class UploadForm {
    var files: seq<FileInfo>
    var slug: string
    var displayName: string
    var version: string
    var tags: string
    var changelog: string
    var status: Option<string>
    var error: Option<string>

    /** A fresh form: no files, version `1.0.0`, tag `latest`. */
    constructor()
      ensures files == [] && slug == [] && displayName == [] && version == "1.0.0"
      ensures tags == "latest" && changelog == [] && status == None && error == None
    {
      files := [];
      slug := [];
      displayName := [];
      version := "1.0.0";
      tags := "latest";
      changelog := [];
      status := None;
      error := None;
    }

    /** handleSubmit. Without files nothing changes. A failed check sets its
        message and uploads nothing. Otherwise every file is uploaded and
        hashed in order, and the version is published with the parsed tags. */
    method Submit(storageIdOf: FileInfo -> string, digestOf: FileInfo -> seq<Byte>)
      returns (request: Option<PublishRequest>)
      modifies this
      ensures files == old(files) && slug == old(slug) && displayName == old(displayName)
      ensures version == old(version) && tags == old(tags) && changelog == old(changelog)
      ensures request.Some? <==> CheckSubmission(files) == Ready
      ensures CheckSubmission(files) == NoFiles ==> error == old(error) && status == old(status)
      ensures CheckSubmission(files) in {TooLarge, MissingSkillFile} ==>
                error == CheckMessage(CheckSubmission(files)) && status == old(status)
      ensures CheckSubmission(files) == Ready ==>
                error == None && status == Some(PublishedStatus)
                && request.value == PublishRequest(slug, displayName, version, changelog,
                                                   ParseTags(tags), Records(files, storageIdOf, digestOf))
    {
      if |files| == 0 {
        return None;
      }
      error := None;
      if TotalBytes(files) > MaxTotalBytes {
        error := Some(TooLargeMessage);
        return None;
      }
      if !HasSkillFile(files) {
        error := Some(MissingSkillMessage);
        return None;
      }
      status := Some(UploadingStatus);
      var uploaded := UploadAll(files, storageIdOf, digestOf);
      status := Some(PublishingStatus);
      request := Some(PublishRequest(slug, displayName, version, changelog, ParseTags(tags), uploaded));
      status := Some(PublishedStatus);
    }
  }
}
