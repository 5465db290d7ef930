/**
  The supported-format filter: a name is a RAW file when its lower-cased form
  ends with one of nine extensions. `convert_folder` keeps the matching names of
  a folder listing, in listing order, and joins each to the folder.
*/
module Formats {

  import opened PyStr
  import opened PosixPath

  /** `SUPPORTED_FORMATS`, in the order the program lists them. */
  const SupportedFormats: seq<string> :=
    [".crw", ".cr2", ".cr3", ".arw", ".raf", ".dng", ".rw2", ".nef", ".nrw"]

  /** `name.lower().endswith(SUPPORTED_FORMATS)` */
  predicate IsSupported(name: string)
  {
    EndsWithAny(Lower(name), SupportedFormats)
  }

  /**
    Reference reading of the filter: the name has at least four characters and
    its last four, lower-cased, are one of the formats.
  */
  lemma SupportedIffLastFour(name: string)
    ensures IsSupported(name) <==> |name| >= 4 && Lower(name[|name| - 4..]) in SupportedFormats
  {
    assert forall i :: 0 <= i < |SupportedFormats| ==> |SupportedFormats[i]| == 4;
    if |name| >= 4 {
      assert Lower(name)[|name| - 4..] == Lower(name[|name| - 4..]);
      if Lower(name[|name| - 4..]) in SupportedFormats {
        var i :| 0 <= i < |SupportedFormats| && SupportedFormats[i] == Lower(name[|name| - 4..]);
        assert EndsWith(Lower(name), SupportedFormats[i]);
      }
    }
  }

  /** Names that agree up to ASCII case are selected together. */
  lemma SelectionIgnoresCase(a: string, b: string)
    requires |a| == |b|
    requires forall i :: 0 <= i < |a| ==> LowerChar(a[i]) == LowerChar(b[i])
    ensures IsSupported(a) <==> IsSupported(b)
  {
    assert Lower(a) == Lower(b);
  }

  /** Names the filter keeps, in any case, including a hidden file named only by an extension. */
  lemma AcceptedNames()
    ensures IsSupported("IMG_0001.CR2") && IsSupported("dsc.Nef") && IsSupported(".cr2")
  {
    var a, b, c := "IMG_0001.CR2", "dsc.Nef", ".cr2";
    assert EndsWith(Lower(a), SupportedFormats[1]) by {
      assert Lower(a)[8..] == SupportedFormats[1];
    }
    assert EndsWith(Lower(b), SupportedFormats[7]) by {
      assert Lower(b)[3..] == SupportedFormats[7];
    }
    assert EndsWith(Lower(c), SupportedFormats[1]);
  }

  /** Names the filter rejects: another extension, a RAW extension mid-name, no dot. */
  lemma RejectedNames()
    ensures !IsSupported("a.txt") && !IsSupported("a.cr2.xmp") && !IsSupported("cr2")
  {
    var a, b, c := "a.txt", "a.cr2.xmp", "cr2";
    SupportedIffLastFour(a);
    assert Lower(a[1..]) == ".txt";
    SupportedIffLastFour(b);
    assert Lower(b[5..]) == ".xmp";
    SupportedIffLastFour(c);
  }

  /** The names of `names` that the filter keeps, in their original order. */
  function SelectSupported(names: seq<string>): (r: seq<string>)
    ensures forall x :: x in r <==> x in names && IsSupported(x)
    ensures |r| <= |names|
  {
    if names == [] then []
    else (if IsSupported(names[0]) then [names[0]] else []) + SelectSupported(names[1..])
  }

  /** The filter keeps each supported name as many times as it is listed, and nothing else. */
  lemma {:induction false} SelectionCounts(names: seq<string>)
    ensures forall x :: multiset(SelectSupported(names))[x] == if IsSupported(x) then multiset(names)[x] else 0
    decreases |names|
  {
    if names != [] {
      SelectionCounts(names[1..]);
      assert names == [names[0]] + names[1..];
      assert multiset(names) == multiset{names[0]} + multiset(names[1..]);
    }
  }

  /** `a` can be obtained from `b` by deleting elements (greedy matching). */
  predicate IsSubsequence(a: seq<string>, b: seq<string>)
    decreases |b|
  {
    if a == [] then true
    else if b == [] then false
    else if a[0] == b[0] then IsSubsequence(a[1..], b[1..])
    else IsSubsequence(a, b[1..])
  }

  /** The selection keeps the listing order: it is a subsequence of the listing. */
  lemma {:induction false} SelectionIsSubsequence(names: seq<string>)
    ensures IsSubsequence(SelectSupported(names), names)
    decreases |names|
  {
    if names != [] {
      SelectionIsSubsequence(names[1..]);
      var rest := SelectSupported(names[1..]);
      if IsSupported(names[0]) {
        assert ([names[0]] + rest)[1..] == rest;
      } else if rest != [] {
        assert rest[0] in rest;
        assert rest[0] != names[0];
        assert SelectSupported(names) == rest;
        assert IsSubsequence(rest, names) == IsSubsequence(rest, names[1..]);
      }
    }
  }

  /** Filtering a listing in two pieces gives the two filtered pieces, in order. */
  lemma {:induction false} SelectionDistributes(xs: seq<string>, ys: seq<string>)
    ensures SelectSupported(xs + ys) == SelectSupported(xs) + SelectSupported(ys)
    decreases |xs|
  {
    if xs == [] {
      assert xs + ys == ys;
    } else {
      assert (xs + ys)[1..] == xs[1..] + ys;
      SelectionDistributes(xs[1..], ys);
    }
  }

  /** Filtering a filtered listing changes nothing. */
  lemma {:induction false} SelectionIdempotent(names: seq<string>)
    ensures SelectSupported(SelectSupported(names)) == SelectSupported(names)
    decreases |names|
  {
    if names != [] {
      var head := if IsSupported(names[0]) then [names[0]] else [];
      SelectionDistributes(head, SelectSupported(names[1..]));
      SelectionIdempotent(names[1..]);
    }
  }

  /** `[os.path.join(folder, f) for f in listing if f.lower().endswith(SUPPORTED_FORMATS)]` */
  function FolderFiles(folder: string, listing: seq<string>): (r: seq<string>)
    ensures |r| == |SelectSupported(listing)|
    ensures forall i :: 0 <= i < |r| ==> r[i] == Join(folder, SelectSupported(listing)[i])
  {
    if listing == [] then []
    else (if IsSupported(listing[0]) then [Join(folder, listing[0])] else []) + FolderFiles(folder, listing[1..])
  }

  /** A supported name stays supported once a folder is put in front of it. */
  lemma SupportedAfterJoin(folder: string, name: string)
    requires IsSupported(name) && '/' !in name
    ensures IsSupported(Join(folder, name))
  {
    var x := if folder == [] || folder[|folder| - 1] == '/' then folder else folder + "/";
    var p := Join(folder, name);
    assert p == x + name;
    var i :| 0 <= i < |SupportedFormats| && EndsWith(Lower(name), SupportedFormats[i]);
    var f := SupportedFormats[i];
    assert Lower(p)[|x|..] == Lower(name);
    assert Lower(p)[|p| - |f|..] == Lower(p)[|x|..][|name| - |f|..];
    assert EndsWith(Lower(p), f);
  }

  /**
    Every path `convert_folder` queues is supported and sits directly in the
    folder under the listed name (listing names hold no separator).
  */
  lemma FolderFilesAreSupported(folder: string, listing: seq<string>)
    requires forall k :: 0 <= k < |listing| ==> '/' !in listing[k]
    ensures forall i :: 0 <= i < |FolderFiles(folder, listing)| ==>
      IsSupported(FolderFiles(folder, listing)[i]) &&
      Basename(FolderFiles(folder, listing)[i]) in listing
  {
    var names := SelectSupported(listing);
    forall i | 0 <= i < |names|
      ensures IsSupported(Join(folder, names[i])) && Basename(Join(folder, names[i])) in listing
    {
      assert names[i] in names;
      SupportedAfterJoin(folder, names[i]);
      JoinBasename(folder, names[i]);
    }
  }
}
