/**
  The parts of Python's `str` that the converter relies on: `lower`, `endswith`
  with a tuple of suffixes, and `replace` (every non-overlapping occurrence,
  scanned left to right; an empty target inserts the replacement around every
  character).
*/
module PyStr {

  /** `str.lower` on one character, for the ASCII letters. */
  function LowerChar(c: char): char
  {
    if 'A' <= c <= 'Z' then (c as int + 32) as char else c
  }

  /** `s.lower()`, character by character. */
  function Lower(s: string): (r: string)
    ensures |r| == |s|
  {
    seq(|s|, i requires 0 <= i < |s| => LowerChar(s[i]))
  }

  /**
    `Lower` leaves no upper-case ASCII letter; exactly the upper-case letters
    change, each to its lower-case partner; lowering again changes nothing.
  */
  lemma LowerSpec(s: string)
    ensures forall i :: 0 <= i < |s| ==> !('A' <= Lower(s)[i] <= 'Z')
    ensures forall i :: 0 <= i < |s| ==> (Lower(s)[i] == s[i] <==> !('A' <= s[i] <= 'Z'))
    ensures forall i :: 0 <= i < |s| && 'A' <= s[i] <= 'Z' ==> Lower(s)[i] as int == s[i] as int + 32
    ensures Lower(Lower(s)) == Lower(s)
  {
  }

  /** `s.endswith(suffix)` */
  predicate EndsWith(s: string, suffix: string)
  {
    |suffix| <= |s| && s[|s| - |suffix|..] == suffix
  }

  /** `s.endswith(suffixes)` for a tuple of suffixes: true when any of them matches. */
  predicate EndsWithAny(s: string, suffixes: seq<string>)
  {
    exists i :: 0 <= i < |suffixes| && EndsWith(s, suffixes[i])
  }

  /** `target` occurs in `s` starting at index `j`. */
  predicate OccursAt(s: string, target: string, j: int)
  {
    0 <= j && j + |target| <= |s| && s[j..j + |target|] == target
  }

  /** `s.replace(target, replacement)` */
  function Replace(s: string, target: string, replacement: string): string
    decreases |s|
  {
    if target == [] then
      if s == [] then replacement else replacement + [s[0]] + Replace(s[1..], target, replacement)
    else if |s| < |target| then s
    else if s[..|target|] == target then replacement + Replace(s[|target|..], target, replacement)
    else [s[0]] + Replace(s[1..], target, replacement)
  }

  /** The number of replacements `Replace` performs (Python's `s.count(target)`). */
  function MatchCount(s: string, target: string): nat
    decreases |s|
  {
    if target == [] then |s| + 1
    else if |s| < |target| then 0
    else if s[..|target|] == target then 1 + MatchCount(s[|target|..], target)
    else MatchCount(s[1..], target)
  }

  /**
    `(m + 1) * d == m * d + d`. A proof helper only: stated on its own, this step
    stays cheap; inside `ReplaceLength` it is slow to prove.
  */
  lemma MulSucc(m: int, d: int)
    ensures (m + 1) * d == m * d + d
  {
  }

  /**
    Every replacement swaps `|target|` characters for `|replacement|` ones; an
    empty target is matched `|s| + 1` times.
  */
  lemma {:induction false} ReplaceLength(s: string, target: string, replacement: string)
    ensures |Replace(s, target, replacement)| == |s| + MatchCount(s, target) * (|replacement| - |target|)
    decreases |s|
  {
    var d := |replacement| - |target|;
    if target == [] {
      if s != [] {
        ReplaceLength(s[1..], target, replacement);
        MulSucc(MatchCount(s[1..], target), d);
      }
    } else if |s| < |target| {
    } else if s[..|target|] == target {
      ReplaceLength(s[|target|..], target, replacement);
      MulSucc(MatchCount(s[|target|..], target), d);
    } else {
      ReplaceLength(s[1..], target, replacement);
    }
  }

  /**
    A longer replacement never gives a shorter result, and gives a strictly
    longer one as soon as anything matches.
  */
  lemma {:induction false} ReplaceLengthGrows(s: string, target: string, r1: string, r2: string)
    requires |r1| < |r2|
    ensures |Replace(s, target, r1)| <= |Replace(s, target, r2)|
    ensures MatchCount(s, target) >= 1 ==> |Replace(s, target, r1)| < |Replace(s, target, r2)|
    decreases |s|
  {
    if target == [] {
      if s != [] {
        ReplaceLengthGrows(s[1..], target, r1, r2);
      }
    } else if |s| < |target| {
    } else if s[..|target|] == target {
      ReplaceLengthGrows(s[|target|..], target, r1, r2);
    } else {
      ReplaceLengthGrows(s[1..], target, r1, r2);
    }
  }

  /** Python finds at least one match whenever the target occurs somewhere. */
  lemma {:induction false} OccurrenceIsMatched(s: string, target: string, j: int)
    requires target != [] && OccursAt(s, target, j)
    ensures MatchCount(s, target) >= 1
    decreases j
  {
    if s[..|target|] != target {
      assert j != 0;
      assert s[1..][j - 1..j - 1 + |target|] == s[j..j + |target|];
      OccurrenceIsMatched(s[1..], target, j - 1);
    }
  }

  /** A non-empty target that ends the string is always matched. */
  lemma SuffixIsMatched(s: string, target: string)
    requires target != [] && EndsWith(s, target)
    ensures MatchCount(s, target) >= 1
  {
    assert s[|s| - |target|..|s| - |target| + |target|] == target;
    OccurrenceIsMatched(s, target, |s| - |target|);
  }

  /** A target whose first character is absent from `s` never occurs in it. */
  lemma FirstCharAbsent(s: string, target: string)
    requires target != [] && target[0] !in s
    ensures forall j :: !OccursAt(s, target, j)
  {
    forall j ensures !OccursAt(s, target, j) {
      if 0 <= j && j + |target| <= |s| {
        assert s[j..j + |target|][0] == s[j];
        assert s[j] in s;
      }
    }
  }

  /** Replacing with different-length strings gives different results once anything matches. */
  lemma ReplacementsDiffer(s: string, target: string, r1: string, r2: string)
    requires MatchCount(s, target) >= 1 && |r1| != |r2|
    ensures Replace(s, target, r1) != Replace(s, target, r2)
  {
    if |r1| < |r2| {
      ReplaceLengthGrows(s, target, r1, r2);
    } else {
      ReplaceLengthGrows(s, target, r2, r1);
    }
  }

  /** A string in which the target never occurs is left as it is. */
  lemma {:induction false} ReplaceAbsent(s: string, target: string, replacement: string)
    requires target != []
    requires forall j :: !OccursAt(s, target, j)
    ensures Replace(s, target, replacement) == s
    decreases |s|
  {
    if |s| >= |target| {
      assert !OccursAt(s, target, 0);
      assert s[..|target|] != target;
      forall j | OccursAt(s[1..], target, j) ensures OccursAt(s, target, j + 1) {
        assert s[1..][j..j + |target|] == s[j + 1..j + 1 + |target|];
      }
      ReplaceAbsent(s[1..], target, replacement);
    }
  }

  /** A dot-led extension cannot start inside a non-empty stem that does not contain it. */
  lemma ExtensionNotAtFront(stem: string, ext: string)
    requires ext != [] && ext[0] == '.' && '.' !in ext[1..]
    requires stem != [] && !OccursAt(stem, ext, 0)
    ensures (stem + ext)[..|ext|] != ext
  {
    var s := stem + ext;
    if |stem| >= |ext| {
      assert s[..|ext|] == stem[0..|ext|];
    } else {
      assert ext[1..][|stem| - 1] == ext[|stem|];
      assert s[..|ext|][|stem|] == '.' != ext[|stem|];
    }
  }

  /**
    The first occurrence of a dot-led extension, after a stem that lacks it, is
    replaced and scanning resumes right after it.
  */
  lemma {:induction false} ReplaceFirstExtension(stem: string, ext: string, rest: string, replacement: string)
    requires ext != [] && ext[0] == '.' && '.' !in ext[1..]
    requires forall j :: !OccursAt(stem, ext, j)
    ensures Replace(stem + ext + rest, ext, replacement) == stem + replacement + Replace(rest, ext, replacement)
    decreases |stem|
  {
    var s := stem + ext + rest;
    if stem == [] {
      assert s == ext + rest;
      assert s[..|ext|] == ext && s[|ext|..] == rest;
    } else {
      ExtensionNotAtFront(stem, ext);
      assert s[..|ext|] == (stem + ext)[..|ext|];
      forall j | OccursAt(stem[1..], ext, j) ensures OccursAt(stem, ext, j + 1) {
        assert stem[1..][j..j + |ext|] == stem[j + 1..j + 1 + |ext|];
      }
      ReplaceFirstExtension(stem[1..], ext, rest, replacement);
      assert s[1..] == stem[1..] + ext + rest;
      var tail := Replace(rest, ext, replacement);
      assert Replace(s, ext, replacement) == [s[0]] + (stem[1..] + replacement + tail);
      assert [stem[0]] + stem[1..] == stem;
      assert [s[0]] + (stem[1..] + replacement + tail) == stem + replacement + tail;
    }
  }

  /**
    An extension (a dot followed by dot-free text) that does not occur in the stem
    is replaced only where it ends the name: `stem + ext` becomes `stem + replacement`.
  */
  lemma ReplaceSingleExtension(stem: string, ext: string, replacement: string)
    requires ext != [] && ext[0] == '.' && '.' !in ext[1..]
    requires forall j :: !OccursAt(stem, ext, j)
    ensures Replace(stem + ext, ext, replacement) == stem + replacement
  {
    ReplaceFirstExtension(stem, ext, [], replacement);
    assert stem + ext + [] == stem + ext;
  }

  /** A string that is exactly the target becomes exactly the replacement. */
  lemma ReplaceWhole(target: string, replacement: string)
    requires target != []
    ensures Replace(target, target, replacement) == replacement
  {
    assert target[..|target|] == target && target[|target|..] == [];
  }

  /** `replace` introduces no character that neither the string nor the replacement holds. */
  lemma {:induction false} ReplaceKeepsOut(s: string, target: string, replacement: string, c: char)
    requires c !in s && c !in replacement
    ensures c !in Replace(s, target, replacement)
    decreases |s|
  {
    if target == [] {
      if s != [] {
        ReplaceKeepsOut(s[1..], target, replacement, c);
      }
    } else if |s| < |target| {
    } else if s[..|target|] == target {
      ReplaceKeepsOut(s[|target|..], target, replacement, c);
    } else {
      ReplaceKeepsOut(s[1..], target, replacement, c);
    }
  }
}
