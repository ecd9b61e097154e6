/** The image upload shared by community posts, event posts and notices:
    each uploaded file is stored under a fresh UUID followed by its original
    name cut before the last '.', and one active file row is saved per image.
    Writing the bytes to disk is not part of this model. */
module Uploads {
  import opened Common
  import opened Tables
  import opened Repositories

  /** `"/uploadFiles/communityFiles/"`, `"/uploadFiles/eventFiles/"` and
      `"/uploadFiles/noticeFiles/"`: the URL prefixes of the three uploads. */
  const CommunityFilesPrefix := "/uploadFiles/communityFiles/"
  const EventFilesPrefix := "/uploadFiles/eventFiles/"
  const NoticeFilesPrefix := "/uploadFiles/noticeFiles/"

  /** The stored URL of one image: the prefix, the UUID, then the file name
      up to (not including) its last '.'. A name without '.' makes the
      `substring` throw. */
  function StemFileUrl(prefix: string, uuid: string, name: string): (r: Result<string>)
    ensures r.Failure? <==> '.' !in name
    ensures r.Failure? ==> r.error == StringIndexOutOfBounds
    ensures r.Success? ==>
      StartsWith(r.value, prefix + uuid)
      && var stem := r.value[|prefix + uuid|..];
      |stem| < |name| && name[..|stem|] == stem && name[|stem|] == '.' && '.' !in name[|stem| + 1..]
  {
    var stem := StemBeforeLastDot(name);
    if stem.Failure? then Failure(stem.error)
    else
      assert (prefix + uuid + stem.value)[|prefix + uuid|..] == stem.value;
      Success(prefix + uuid + stem.value)
  }

  /** The URLs of a list of images, the i-th with the i-th UUID; the first
      name without '.' ends the upload. */
  function StemFileUrls(prefix: string, names: seq<string>, uuids: seq<string>): (r: Result<seq<string>>)
    requires |uuids| == |names|
    ensures r.Success? <==> forall i :: 0 <= i < |names| ==> '.' in names[i]
    ensures r.Failure? ==> r.error == StringIndexOutOfBounds
    ensures r.Success? ==>
      |r.value| == |names|
      && forall i :: 0 <= i < |names| ==> StemFileUrl(prefix, uuids[i], names[i]) == Success(r.value[i])
    decreases |names|
  {
    if names == [] then Success([])
    else
      var head := StemFileUrl(prefix, uuids[0], names[0]);
      if head.Failure? then Failure(head.error)
      else
        var tail := StemFileUrls(prefix, names[1..], uuids[1..]);
        if tail.Failure? then
          assert '.' !in names[1..][FirstDotless(names[1..])];
          tail
        else
          var urls := [head.value] + tail.value;
          assert forall i :: 1 <= i < |names| ==> names[i] == names[1..][i - 1] && uuids[i] == uuids[1..][i - 1];
          Success(urls)
  }

  /** The index of a name without '.' in a list that has one. */
  function FirstDotless(names: seq<string>): (i: nat)
    requires !(forall j :: 0 <= j < |names| ==> '.' in names[j])
    ensures i < |names| && '.' !in names[i]
    ensures forall j :: 0 <= j < i ==> '.' in names[j]
  {
    if '.' !in names[0] then 0
    else
      assert !(forall j :: 0 <= j < |names[1..]| ==> '.' in names[1..][j]) by {
        var k :| 0 <= k < |names| && '.' !in names[k];
        assert k > 0 && names[1..][k - 1] == names[k];
      }
      1 + FirstDotless(names[1..])
  }

  /** `saveFiles`: one active file row per image, in order, owned by
      `ownerCode` and created now. A file name without '.' stops the loop with
      `StringIndexOutOfBounds`, after the rows saved before it; the service's
      transaction then rolls those back. */
  method SaveStemFiles(files: FileRepository, prefix: string, names: seq<string>, uuids: seq<string>,
                       ownerCode: int, now: int)
    returns (out: Outcome)
    requires files.Valid() && |uuids| == |names|
    modifies files
    ensures files.Valid()
    ensures out == Done <==> StemFileUrls(prefix, names, uuids).Success?
    ensures out != Done ==> out == Fail(StringIndexOutOfBounds)
    ensures out == Done ==>
      files.rows == old(files.rows)
        + FileRows(|old(files.rows)|, StemFileUrls(prefix, names, uuids).value, ownerCode, now)
  {
    ghost var before := files.rows;
    ghost var urls: seq<string> := [];
    var i := 0;
    while i < |names|
      invariant 0 <= i <= |names| && |urls| == i
      invariant forall j :: 0 <= j < i ==> StemFileUrl(prefix, uuids[j], names[j]) == Success(urls[j])
      invariant |files.rows| == |before| + i && files.rows[..|before|] == before
      invariant forall j :: 0 <= j < i ==>
        files.rows[|before| + j] == FileRecord(|before| + j + 1, urls[j], ownerCode, now, true)
    {
      var url := StemFileUrl(prefix, uuids[i], names[i]);
      if url.Failure? {
        FileRowsAppended(files.rows, before, urls, ownerCode, now);
        FileRowsCoded(before, urls, ownerCode, now);
        return Fail(url.error);
      }
      var row := FileRecord(|files.rows| + 1, url.value, ownerCode, now, true);
      files.rows := files.rows + [row];
      urls := urls + [url.value];
      i := i + 1;
    }
    StemFileUrlsOf(prefix, names, uuids, urls);
    FileRowsAppended(files.rows, before, urls, ownerCode, now);
    FileRowsCoded(before, urls, ownerCode, now);
    return Done;
  }

  /** URLs that each name's own computation gives are the list's URLs. */
  lemma StemFileUrlsOf(prefix: string, names: seq<string>, uuids: seq<string>, urls: seq<string>)
    requires |uuids| == |names| && |urls| == |names|
    requires forall j :: 0 <= j < |names| ==> StemFileUrl(prefix, uuids[j], names[j]) == Success(urls[j])
    ensures StemFileUrls(prefix, names, uuids) == Success(urls)
  {
    var r := StemFileUrls(prefix, names, uuids);
    forall j | 0 <= j < |names| ensures '.' in names[j] {
      assert StemFileUrl(prefix, uuids[j], names[j]).Success?;
    }
    assert r.Success?;
    forall j | 0 <= j < |names| ensures r.value[j] == urls[j] {
      assert StemFileUrl(prefix, uuids[j], names[j]) == Success(r.value[j]);
    }
    assert r.value == urls;
  }

  /** The files one row owns. */
  function OwnedBy(ownerCode: int): FileRecord -> bool {
    (f: FileRecord) => f.ownerCode == ownerCode
  }

  /** `findByCommunityPost`, `findByNoticePost`: the URLs of every file
      (active or not) owned by one row, one URL per
      owned file. */
  function FileUrlsOf(files: seq<FileRecord>, ownerCode: int): (urls: seq<string>)
    ensures |urls| == |Filter(files, OwnedBy(ownerCode))| <= |files|
    ensures forall f :: f in files && f.ownerCode == ownerCode ==> f.url in urls
    ensures forall i :: 0 <= i < |urls| ==>
      var f := Filter(files, OwnedBy(ownerCode))[i]; f in files && f.ownerCode == ownerCode && urls[i] == f.url
  {
    var owned := Filter(files, OwnedBy(ownerCode));
    var urls := seq(|owned|, i requires 0 <= i < |owned| => owned[i].url);
    forall f | f in files && f.ownerCode == ownerCode ensures f.url in urls {
      var i := IndexIn(owned, f);
      assert urls[i] == f.url;
    }
    forall i | 0 <= i < |urls|
      ensures owned[i] in files && owned[i].ownerCode == ownerCode && urls[i] == owned[i].url
    {
      assert owned[i] in owned;
    }
    urls
  }
}
