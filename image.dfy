/** `get_image_id_ext` of `src/image.rs`: the name under which the image
    cache stores an image, derived from the image URL's path. */
module Image {
  import opened Wrappers
  import opened Strings
  import opened Urls

  function Reverse<T>(s: seq<T>): (r: seq<T>)
    ensures |r| == |s|
    ensures forall i :: 0 <= i < |s| ==> r[i] == s[|s| - 1 - i]
  {
    if s == [] then [] else Reverse(s[1..]) + [s[0]]
  }

  /** The path with every leading `/media/upload` removed, then every leading `/`. */
  function FileName(u: Url): string
  {
    TrimStartMatches(TrimStartMatches(Path(u), "/media/upload"), "/")
  }

  /** `get_image_id_ext`: the part of the file name before its last `.`,
      its `/`-separated pieces in reverse order joined by `-`, and the part
      after the last `.`; an error when the name has no `.`. */
  function ImageIdExt(u: Url): (r: Result<(string, string)>)
    ensures r.Err? <==> '.' !in FileName(u)
    ensures r.Ok? ==> '.' !in r.value.1 && EndsWith(FileName(u), "." + r.value.1)
  {
    var file := FileName(u);
    match RSplitOnce(file, '.')
    case None => Err("image URL has no file extension: " + Serialize(u))
    case Some((name, ext)) =>
      assert file == name + ("." + ext);
      Ok((Join(Reverse(Split(name, '/')), "-"), ext))
  }

  lemma {:induction false} SumLengthsSnoc(parts: seq<string>, p: string)
    ensures SumLengths(parts + [p]) == SumLengths(parts) + |p|
  {
    if parts != [] {
      assert (parts + [p])[1..] == parts[1..] + [p];
      SumLengthsSnoc(parts[1..], p);
    }
  }

  lemma {:induction false} SumLengthsReverse(parts: seq<string>)
    ensures SumLengths(Reverse(parts)) == SumLengths(parts)
  {
    if parts != [] {
      SumLengthsReverse(parts[1..]);
      SumLengthsSnoc(Reverse(parts[1..]), parts[0]);
    }
  }

  /** For a file name `name.ext` whose extension has no `.`: the extension
      is `ext`, and the id is as long as `name` (each `/` becomes one `-`),
      so it is empty only when `name` is; it is made of one piece more than
      `name` has `/`s. */
  lemma ImageIdShape(u: Url, name: string, ext: string)
    requires FileName(u) == name + "." + ext && '.' !in ext
    ensures ImageIdExt(u).Ok? && ImageIdExt(u).value.1 == ext
    ensures |ImageIdExt(u).value.0| == |name|
    ensures ImageIdExt(u).value.0 == [] <==> name == []
    ensures exists parts :: |parts| == multiset(name)['/'] + 1 && ImageIdExt(u).value.0 == Join(parts, "-")
  {
    assert FileName(u) == name + ['.'] + ext;
    RSplitOnceUnique(FileName(u), '.', name, ext);
    var pieces := Split(name, '/');
    var parts := Reverse(pieces);
    assert ImageIdExt(u).value.0 == Join(parts, "-");
    SplitCount(name, '/');
    JoinLength(parts, "-");
    SplitSpec(name, '/');
    JoinLength(pieces, "/");
    SumLengthsReverse(pieces);
  }

  /** The example of the source: an upload path gives the file name first,
      then the directories from the innermost out. */
  lemma ImageIdExample()
    ensures ImageIdExt(ExampleUrl) == Ok(("File-ab-a", "png"))
  {
    ExampleFileName();
    ExampleDot();
    ImageIdOf(ExampleUrl, "a/ab/File", "png");
    ExampleId();
  }

  lemma ExampleDot()
    ensures "a/ab/File.png" == "a/ab/File" + "." + "png" && '.' !in "png"
  {
  }

  lemma ExampleId()
    ensures Join(Reverse(Split("a/ab/File", '/')), "-") == "File-ab-a"
  {
    ExampleSplit();
    ExampleJoin();
  }

  /** The id and extension of a file name `name.ext` whose extension has no `.`. */
  lemma ImageIdOf(u: Url, name: string, ext: string)
    requires FileName(u) == name + "." + ext && '.' !in ext
    ensures ImageIdExt(u) == Ok((Join(Reverse(Split(name, '/')), "-"), ext))
  {
    assert FileName(u) == name + ['.'] + ext;
    RSplitOnceUnique(FileName(u), '.', name, ext);
  }

  lemma ExampleJoin()
    ensures Join(Reverse(["a", "ab", "File"]), "-") == "File-ab-a"
  {
    assert Reverse(["a", "ab", "File"]) == ["File", "ab", "a"];
  }

  const ExampleUrl := Url("https", Some(Domain("archives.bulbagarden.net")), None,
    ["media", "upload", "a", "ab", "File.png"], None, None)

  lemma ExampleFileName()
    ensures FileName(ExampleUrl) == "a/ab/File.png"
  {
    ExamplePath();
    ExampleTrimUpload();
    ExampleTrimSlash();
  }

  lemma ExamplePath()
    ensures Path(ExampleUrl) == "/media/upload/a/ab/File.png"
  {
    ExamplePathUpload();
    var segs := ExampleUrl.segments;
    assert segs[1..] == ["upload", "a", "ab", "File.png"];
    assert Path(ExampleUrl) == "/media" + "/upload/a/ab/File.png";
  }

  lemma ExamplePathFile()
    ensures PathOf(["File.png"]) == "/File.png"
  {
  }

  lemma ExamplePathAb()
    ensures PathOf(["ab", "File.png"]) == "/ab/File.png"
  {
    ExamplePathFile();
  }

  lemma ExamplePathA()
    ensures PathOf(["a", "ab", "File.png"]) == "/a/ab/File.png"
  {
    ExamplePathAb();
  }

  lemma ExamplePathUpload()
    ensures PathOf(["upload", "a", "ab", "File.png"]) == "/upload/a/ab/File.png"
  {
    ExamplePathA();
  }

  lemma ExampleTrimUpload()
    ensures TrimStartMatches("/media/upload/a/ab/File.png", "/media/upload") == "/a/ab/File.png"
  {
    var path := "/media/upload/a/ab/File.png";
    var p1 := "/a/ab/File.png";
    assert StartsWith(path, "/media/upload") && path[13..] == p1;
    assert !StartsWith(p1, "/media/upload") by {
      assert p1[1] != "/media/upload"[1];
    }
  }

  lemma ExampleTrimSlash()
    ensures TrimStartMatches("/a/ab/File.png", "/") == "a/ab/File.png"
  {
    var p1 := "/a/ab/File.png";
    var p2 := "a/ab/File.png";
    assert StartsWith(p1, "/") && p1[1..] == p2;
    assert !StartsWith(p2, "/") by {
      assert p2[0] != '/';
    }
  }

  lemma ExampleSplit()
    ensures Split("a/ab/File", '/') == ["a", "ab", "File"]
  {
    ExampleSplitTail();
    assert "a/ab/File" == "a" + ['/'] + "ab/File";
    SplitFirst("a", '/', "ab/File");
  }

  lemma ExampleSplitTail()
    ensures Split("ab/File", '/') == ["ab", "File"]
  {
    assert "ab/File" == "ab" + ['/'] + "File";
    SplitFirst("ab", '/', "File");
    SplitNone("File", '/');
  }
}
