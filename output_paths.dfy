/**
  Where a conversion writes: `os.path.join(output_folder,
  os.path.basename(file_path).replace(os.path.splitext(file_path)[1], suffix))`,
  with suffix ".jpg" for a full conversion and "_thumb.jpg" for a thumbnail.
*/
module OutputPaths {

  import opened PyStr
  import opened PosixPath

  const FullSuffix: string := ".jpg"
  const ThumbSuffix: string := "_thumb.jpg"

  /** The basename with every occurrence of the path's extension replaced by `suffix`. */
  function OutputName(filePath: string, suffix: string): string
  {
    Replace(Basename(filePath), Ext(filePath), suffix)
  }

  function OutputPath(outputFolder: string, filePath: string, suffix: string): string
  {
    Join(outputFolder, OutputName(filePath, suffix))
  }

  /** The path `convert_raw_to_jpg` writes. */
  function FullOutputPath(outputFolder: string, filePath: string): string
  {
    OutputPath(outputFolder, filePath, FullSuffix)
  }

  /** The path `extract_thumbnail` writes. */
  function ThumbOutputPath(outputFolder: string, filePath: string): string
  {
    OutputPath(outputFolder, filePath, ThumbSuffix)
  }

  /** The basename without its extension. */
  function Stem(filePath: string): string
  {
    ExtEndsBasename(filePath);
    Basename(filePath)[..|Basename(filePath)| - |Ext(filePath)|]
  }

  /** The basename is the stem followed by the extension. */
  lemma BasenameSplits(filePath: string)
    ensures Basename(filePath) == Stem(filePath) + Ext(filePath)
  {
    ExtEndsBasename(filePath);
  }

  /** Outputs land directly in the output folder, under the derived name. */
  lemma OutputLandsInFolder(outputFolder: string, filePath: string, suffix: string)
    requires '/' !in suffix
    ensures '/' !in OutputName(filePath, suffix)
    ensures Basename(OutputPath(outputFolder, filePath, suffix)) == OutputName(filePath, suffix)
  {
    ReplaceKeepsOut(Basename(filePath), Ext(filePath), suffix, '/');
    JoinBasename(outputFolder, OutputName(filePath, suffix));
  }

  /**
    When the extension appears in the basename only as its ending, the output
    name is the stem followed by the suffix.
  */
  lemma OutputIsStemPlusSuffix(outputFolder: string, filePath: string, suffix: string)
    requires Ext(filePath) != []
    requires forall j :: !OccursAt(Stem(filePath), Ext(filePath), j)
    ensures OutputName(filePath, suffix) == Stem(filePath) + suffix
    ensures OutputPath(outputFolder, filePath, suffix) == Join(outputFolder, Stem(filePath) + suffix)
  {
    BasenameSplits(filePath);
    ReplaceSingleExtension(Stem(filePath), Ext(filePath), suffix);
  }

  /** `replace` always finds the extension at least once (or, when it is empty, matches everywhere). */
  lemma ExtensionIsMatched(filePath: string)
    ensures MatchCount(Basename(filePath), Ext(filePath)) >= 1
  {
    var b := Basename(filePath);
    var e := Ext(filePath);
    if e != [] {
      ExtEndsBasename(filePath);
      SuffixIsMatched(b, e);
    }
  }

  /** For one source, the thumbnail and the full conversion never write the same path. */
  lemma ThumbAndFullPathsDiffer(outputFolder: string, filePath: string)
    ensures ThumbOutputPath(outputFolder, filePath) != FullOutputPath(outputFolder, filePath)
  {
    ExtensionIsMatched(filePath);
    ReplacementsDiffer(Basename(filePath), Ext(filePath), ThumbSuffix, FullSuffix);
    OutputLandsInFolder(outputFolder, filePath, ThumbSuffix);
    OutputLandsInFolder(outputFolder, filePath, FullSuffix);
  }

  /** Where the last separator and the last dot of such a path sit. */
  lemma PlainNameMarks(dir: string, stem: string, tail: string)
    requires '.' !in stem && '/' !in stem && '.' !in tail && '/' !in tail
    ensures RFind(dir + "/" + stem + "." + tail, '/') == |dir|
    ensures RFind(dir + "/" + stem + "." + tail, '.') == |dir| + 1 + |stem|
  {
    RFindLast(dir + "/" + stem + ".", tail, '.');
    RFindAppend(dir + "/" + stem + ".", tail, '/');
    RFindAppend(dir + "/" + stem, ".", '/');
    RFindLast(dir + "/", stem, '/');
  }

  /** The basename of `dir/stem.tail` is `stem.tail`. */
  lemma PlainNameBasename(dir: string, stem: string, tail: string)
    requires '.' !in stem && '/' !in stem && '.' !in tail && '/' !in tail
    ensures Basename(dir + "/" + stem + "." + tail) == stem + "." + tail
  {
    var p := dir + "/" + stem + "." + tail;
    PlainNameMarks(dir, stem, tail);
    assert p[|dir| + 1..] == stem + "." + tail;
  }

  /** With a non-empty stem, the extension of `dir/stem.tail` is `.tail`. */
  lemma PlainNameExt(dir: string, stem: string, tail: string)
    requires stem != [] && '.' !in stem && '/' !in stem && '.' !in tail && '/' !in tail
    ensures Ext(dir + "/" + stem + "." + tail) == "." + tail
  {
    var p := dir + "/" + stem + "." + tail;
    var dot := |dir| + 1 + |stem|;
    PlainNameMarks(dir, stem, tail);
    assert |dir| < |dir| + 1 < dot && p[|dir| + 1] == stem[0] && stem[0] in stem;
    assert p[dot..] == "." + tail;
  }

  /**
    A path `dir/stem.tail` with a non-empty stem and no dot or separator in
    `stem` or `tail` splits into exactly those parts.
  */
  lemma PlainNameParts(dir: string, stem: string, tail: string)
    requires stem != [] && '.' !in stem && '/' !in stem && '.' !in tail && '/' !in tail
    ensures var p := dir + "/" + stem + "." + tail;
      Basename(p) == stem + "." + tail && Ext(p) == "." + tail && Stem(p) == stem
  {
    var p := dir + "/" + stem + "." + tail;
    PlainNameBasename(dir, stem, tail);
    PlainNameExt(dir, stem, tail);
    assert (stem + "." + tail)[..|stem|] == stem;
  }

  /** Such a path's output name is its stem followed by the suffix. */
  lemma PlainNameOutput(dir: string, stem: string, tail: string, suffix: string)
    requires stem != [] && '.' !in stem && '/' !in stem && '.' !in tail && '/' !in tail
    ensures OutputName(dir + "/" + stem + "." + tail, suffix) == stem + suffix
  {
    var p := dir + "/" + stem + "." + tail;
    PlainNameParts(dir, stem, tail);
    FirstCharAbsent(stem, "." + tail);
    OutputIsStemPlusSuffix("", p, suffix);
  }

  /** The usual case: "DCIM/IMG_0001.CR2" gives "IMG_0001.jpg" and "IMG_0001_thumb.jpg". */
  lemma OrdinaryNames()
    ensures var p := "DCIM/IMG_0001.CR2";
      OutputName(p, FullSuffix) == "IMG_0001.jpg" && OutputName(p, ThumbSuffix) == "IMG_0001_thumb.jpg"
  {
    assert "IMG_0001" + FullSuffix == "IMG_0001.jpg";
    assert "IMG_0001" + ThumbSuffix == "IMG_0001_thumb.jpg";
    assert "DCIM" + "/" + "IMG_0001" + "." + "CR2" == "DCIM/IMG_0001.CR2";
    PlainNameOutput("DCIM", "IMG_0001", "CR2", FullSuffix);
    PlainNameOutput("DCIM", "IMG_0001", "CR2", ThumbSuffix);
  }

  /**
    Every occurrence of the extension is replaced, not only the final one: when
    the stem itself ends with the extension ("a.cr2.cr2"), the suffix appears twice.
  */
  lemma DoubledExtensionReplacedTwice(p: string, suffix: string, x: string)
    requires Ext(p) != [] && Stem(p) == x + Ext(p)
    requires forall j :: !OccursAt(x, Ext(p), j)
    ensures OutputName(p, suffix) == x + suffix + suffix
  {
    var e := Ext(p);
    BasenameSplits(p);
    ReplaceFirstExtension(x, e, e, suffix);
    ReplaceWhole(e, suffix);
  }

  /** How "raw/.cr2" splits: a leading dot does not start an extension. */
  lemma ExtensionOnlyNameParts()
    ensures Basename("raw/.cr2") == ".cr2" && Ext("raw/.cr2") == []
  {
    var p := "raw/.cr2";
    RFindIs(p, '/', 3);
    RFindIs(p, '.', 4);
    assert p[4..] == ".cr2";
  }

  /**
    A file named only by an extension is selected, but `splitext` gives it an
    empty extension, so `replace` inserts the suffix around every character.
  */
  lemma ExtensionOnlyNameIsGarbled()
    ensures OutputName("raw/.cr2", FullSuffix) == ".jpg..jpgc.jpgr.jpg2.jpg"
  {
    var p, j := "raw/.cr2", FullSuffix;
    assert j + "." + (j + "c" + (j + "r" + (j + "2" + j))) == ".jpg..jpgc.jpgr.jpg2.jpg";
    ExtensionOnlyNameParts();
    var b := Basename(p);
    assert Replace(b[3..], [], j) == j + "2" + j by {
      assert b[3..][1..] == [];
    }
    assert Replace(b[2..], [], j) == j + "r" + Replace(b[3..], [], j) by {
      assert b[2..][1..] == b[3..];
    }
    assert Replace(b[1..], [], j) == j + "c" + Replace(b[2..], [], j) by {
      assert b[1..][1..] == b[2..];
    }
    assert Replace(b, [], j) == j + "." + Replace(b[1..], [], j);
  }

  /** Two sources in different folders, with different extensions, get one output name. */
  lemma DistinctSourcesCanCollide()
    ensures OutputName("x/a.CR2", FullSuffix) == OutputName("y/a.NEF", FullSuffix) == "a.jpg"
  {
    assert "a" + FullSuffix == "a.jpg";
    assert "x" + "/" + "a" + "." + "CR2" == "x/a.CR2" && "y" + "/" + "a" + "." + "NEF" == "y/a.NEF";
    PlainNameOutput("x", "a", "CR2", FullSuffix);
    PlainNameOutput("y", "a", "NEF", FullSuffix);
  }
}
