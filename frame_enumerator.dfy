/**
 * Which directory entries become frames, and in what order: the names that
 * end with one of the image suffixes (compared case-sensitively, no dot
 * needed), each joined to the directory as POSIX `os.path.join` does, sorted as
 * Python sorts strings (lexicographically by code point).
 */
module FrameEnumerator {

  /** The suffixes `str.endswith` is given; upper case is accepted for JPG only. */
  const ImageSuffixes: seq<string> := ["png", "jpg", "jpeg", "JPG"]

  predicate EndsWith(s: string, suffix: string) {
    |suffix| <= |s| && s[|s| - |suffix|..] == suffix
  }

  predicate IsImageName(name: string)
  {
    exists i :: 0 <= i < |ImageSuffixes| && EndsWith(name, ImageSuffixes[i])
  }

  /** The comprehension's filter: the image names among the entries, in listing order. */
  function KeepImages(names: seq<string>): (kept: seq<string>)
    ensures forall n :: multiset(kept)[n] == if IsImageName(n) then multiset(names)[n] else 0
    ensures forall k :: 0 <= k < |kept| ==> IsImageName(kept[k])
  {
    if names == [] then []
    else
      assert names == [names[0]] + names[1..];
      (if IsImageName(names[0]) then [names[0]] else []) + KeepImages(names[1..])
  }

  /** What POSIX `os.path.join` puts in front of a name that does not start with "/". */
  function JoinPrefix(directory: string): string {
    if directory == [] || directory[|directory| - 1] == '/' then directory else directory + "/"
  }

  /**
   * POSIX `os.path.join(directory, name)` (`posixpath.join`): a name starting with "/"
   * replaces the directory; otherwise a "/" is put between the two unless
   * the directory is empty or already ends with one.
   */
  function Join(directory: string, name: string): (path: string)
    ensures EndsWith(path, name)
    ensures (|name| == 0 || name[0] != '/') ==> |directory| <= |path| && path[..|directory|] == directory
  {
    if |name| > 0 && name[0] == '/' then name else JoinPrefix(directory) + name
  }

  function JoinAll(directory: string, names: seq<string>): (paths: seq<string>)
    ensures |paths| == |names|
    ensures forall k :: 0 <= k < |names| ==> paths[k] == Join(directory, names[k])
  {
    if names == [] then [] else [Join(directory, names[0])] + JoinAll(directory, names[1..])
  }

  /** Python's `<=` on str: a is a prefix of b, or a is smaller at the first position where they differ. */
  predicate LexLe(a: string, b: string)
    decreases |a|
  {
    |a| == 0 || (|b| > 0 && (a[0] < b[0] || (a[0] == b[0] && LexLe(a[1..], b[1..]))))
  }

  /** A prefix of a string is at most that string. */
  lemma {:induction false} LexLePrefix(a: string, b: string)
    requires a <= b
    ensures LexLe(a, b)
    decreases |a|
  {
    if |a| > 0 {
      LexLePrefix(a[1..], b[1..]);
    }
  }

  predicate Sorted(s: seq<string>) {
    forall i, j :: 0 <= i < j < |s| ==> LexLe(s[i], s[j])
  }

  lemma {:induction false} LexLeReflexive(a: string)
    ensures LexLe(a, a)
    decreases |a|
  {
    if |a| > 0 {
      LexLeReflexive(a[1..]);
    }
  }

  lemma {:induction false} LexLeTotal(a: string, b: string)
    ensures LexLe(a, b) || LexLe(b, a)
    decreases |a|
  {
    if |a| > 0 && |b| > 0 && a[0] == b[0] {
      LexLeTotal(a[1..], b[1..]);
    }
  }

  lemma {:induction false} LexLeAntisymmetric(a: string, b: string)
    requires LexLe(a, b) && LexLe(b, a)
    ensures a == b
    decreases |a|
  {
    if |a| > 0 {
      LexLeAntisymmetric(a[1..], b[1..]);
      assert a == [a[0]] + a[1..] && b == [b[0]] + b[1..];
    }
  }

  lemma {:induction false} LexLeTransitive(a: string, b: string, c: string)
    requires LexLe(a, b) && LexLe(b, c)
    ensures LexLe(a, c)
    decreases |a|
  {
    if |a| > 0 && a[0] == b[0] && b[0] == c[0] {
      LexLeTransitive(a[1..], b[1..], c[1..]);
    }
  }

  /** A common prefix does not change the order: the directory in front of every name leaves the sort as it was. */
  lemma {:induction false} LexLeCommonPrefix(p: string, a: string, b: string)
    ensures LexLe(p + a, p + b) <==> LexLe(a, b)
    decreases |p|
  {
    if |p| > 0 {
      assert (p + a)[1..] == p[1..] + a;
      assert (p + b)[1..] == p[1..] + b;
      LexLeCommonPrefix(p[1..], a, b);
    } else {
      assert p + a == a && p + b == b;
    }
  }

  /** Inserts x before the first element it is not above. */
  function Insert(x: string, s: seq<string>): (t: seq<string>)
    ensures multiset(t) == multiset(s) + multiset{x}
  {
    if s == [] || LexLe(x, s[0]) then [x] + s
    else
      assert s == [s[0]] + s[1..];
      [s[0]] + Insert(x, s[1..])
  }

  lemma {:induction false} InsertSorted(x: string, s: seq<string>)
    requires Sorted(s)
    ensures Sorted(Insert(x, s))
  {
    if s == [] || LexLe(x, s[0]) {
      forall j | 0 <= j < |s| ensures LexLe(x, s[j]) {
        if j > 0 { LexLeTransitive(x, s[0], s[j]); }
      }
    } else {
      LexLeTotal(x, s[0]);
      InsertSorted(x, s[1..]);
      var t := Insert(x, s[1..]);
      assert s == [s[0]] + s[1..];
      forall k | 0 <= k < |t| ensures LexLe(s[0], t[k]) {
        assert t[k] in multiset(t);
        if t[k] != x {
          assert t[k] in multiset(s[1..]);
          var j :| 0 <= j < |s[1..]| && s[1..][j] == t[k];
          assert s[j + 1] == t[k];
        }
      }
    }
  }

  /**
   * Python's `sorted` on strings, written as an insertion sort. Any sort
   * gives the same list (SortedUnique), so the algorithm chosen here does
   * not matter.
   */
  function SortStrings(s: seq<string>): (r: seq<string>)
    ensures multiset(r) == multiset(s)
    ensures Sorted(r)
  {
    if s == [] then []
    else
      assert s == [s[0]] + s[1..];
      var t := SortStrings(s[1..]);
      InsertSorted(s[0], t);
      Insert(s[0], t)
  }

  /** The first element of a sorted list is at most each of its elements. */
  lemma {:induction false} SortedHeadLeast(a: seq<string>, x: string)
    requires Sorted(a) && x in a
    ensures LexLe(a[0], x)
  {
    var i :| 0 <= i < |a| && a[i] == x;
    if i == 0 {
      LexLeReflexive(x);
    }
  }

  /** Removing the same first element from two lists with the same elements leaves the same elements. */
  lemma {:induction false} SameTail(a: seq<string>, b: seq<string>)
    requires |a| > 0 && |b| > 0 && a[0] == b[0] && multiset(a) == multiset(b)
    ensures multiset(a[1..]) == multiset(b[1..])
  {
    assert a == [a[0]] + a[1..] && b == [b[0]] + b[1..];
    forall y
      ensures multiset(a[1..])[y] == multiset(b[1..])[y]
    {
      assert multiset(a)[y] == multiset([a[0]])[y] + multiset(a[1..])[y];
      assert multiset(b)[y] == multiset([b[0]])[y] + multiset(b[1..])[y];
    }
  }

  /** Two sorted lists with the same elements are equal: sorting has one possible result. */
  lemma {:induction false} SortedUnique(a: seq<string>, b: seq<string>)
    requires Sorted(a) && Sorted(b) && multiset(a) == multiset(b)
    ensures a == b
    decreases |a|
  {
    if a != [] {
      assert |b| == |multiset(b)| == |multiset(a)| == |a|;
      assert a[0] in multiset(b) && b[0] in multiset(a);
      SortedHeadLeast(a, b[0]);
      SortedHeadLeast(b, a[0]);
      LexLeAntisymmetric(a[0], b[0]);
      SameTail(a, b);
      SortedUnique(a[1..], b[1..]);
      assert a == [a[0]] + a[1..] && b == [b[0]] + b[1..];
    }
  }

  /** Line 21 as written: filter the names, join each to the directory, sort the paths. */
  function ImageFiles(directory: string, names: seq<string>): (files: seq<string>)
    ensures Sorted(files)
    ensures multiset(files) == multiset(JoinAll(directory, KeepImages(names)))
  {
    SortStrings(JoinAll(directory, KeepImages(names)))
  }

  predicate NoLeadingSlash(names: seq<string>) {
    forall n :: n in names ==> |n| == 0 || n[0] != '/'
  }

  lemma {:induction false} JoinAllInsert(directory: string, x: string, s: seq<string>)
    requires NoLeadingSlash([x] + s)
    ensures JoinAll(directory, Insert(x, s)) == Insert(Join(directory, x), JoinAll(directory, s))
  {
    var p := JoinPrefix(directory);
    assert x in [x] + s;
    assert Join(directory, x) == p + x;
    if s != [] {
      assert s[0] in [x] + s;
      assert Join(directory, s[0]) == p + s[0];
      LexLeCommonPrefix(p, x, s[0]);
      if !LexLe(x, s[0]) {
        assert NoLeadingSlash([x] + s[1..]) by {
          forall n | n in [x] + s[1..] ensures n in [x] + s {
            if n != x { assert n in s[1..]; }
          }
        }
        JoinAllInsert(directory, x, s[1..]);
      }
    }
  }

  lemma {:induction false} JoinAllSort(directory: string, s: seq<string>)
    requires NoLeadingSlash(s)
    ensures JoinAll(directory, SortStrings(s)) == SortStrings(JoinAll(directory, s))
  {
    if s != [] {
      var t := SortStrings(s[1..]);
      assert s == [s[0]] + s[1..];
      JoinAllSort(directory, s[1..]);
      assert NoLeadingSlash([s[0]] + t) by {
        forall n | n in [s[0]] + t ensures n in s {
          if n != s[0] {
            assert n in multiset(t);
          }
        }
      }
      JoinAllInsert(directory, s[0], t);
    }
  }

  /**
   * Sorting the joined paths gives the same list as sorting the bare names
   * and then joining them: the directory does not influence the frame order.
   */
  lemma {:induction false} ImageFilesFollowNameOrder(directory: string, names: seq<string>)
    requires NoLeadingSlash(names)
    ensures ImageFiles(directory, names) == JoinAll(directory, SortStrings(KeepImages(names)))
  {
    var kept := KeepImages(names);
    assert NoLeadingSlash(kept) by {
      forall n | n in kept ensures n in names {
        assert n in multiset(kept);
      }
    }
    JoinAllSort(directory, kept);
  }

  /** A name is kept exactly when it is among the entries and ends with an image suffix. */
  lemma {:induction false} KeptIff(names: seq<string>, n: string)
    ensures n in KeepImages(names) <==> n in names && IsImageName(n)
  {
    var kept := KeepImages(names);
    assert n in kept <==> n in multiset(kept);
    assert n in names <==> n in multiset(names);
  }

  /** The frame list is empty exactly when no entry is an image name. */
  lemma {:induction false} ImageFilesEmptyIff(directory: string, names: seq<string>)
    ensures ImageFiles(directory, names) == [] <==> forall k :: 0 <= k < |names| ==> !IsImageName(names[k])
  {
    var kept := KeepImages(names);
    var files := ImageFiles(directory, names);
    assert |files| == |multiset(files)| == |JoinAll(directory, kept)| == |kept|;
    if kept != [] {
      assert kept[0] in multiset(kept);
      var j :| 0 <= j < |names| && names[j] == kept[0];
    } else {
      forall k | 0 <= k < |names| ensures !IsImageName(names[k]) {
        assert names[k] in multiset(names);
        assert multiset(kept)[names[k]] == 0;
      }
    }
  }

  /** Every suffix of the list is accepted after any text, with or without a dot. */
  lemma {:induction false} SuffixesAccepted(s: string)
    ensures IsImageName(s + "png") && IsImageName(s + "jpg") && IsImageName(s + "jpeg") && IsImageName(s + "JPG")
  {
    assert EndsWith(s + "png", ImageSuffixes[0]) by { assert (s + "png")[|s|..] == "png"; }
    assert EndsWith(s + "jpg", ImageSuffixes[1]) by { assert (s + "jpg")[|s|..] == "jpg"; }
    assert EndsWith(s + "jpeg", ImageSuffixes[2]) by { assert (s + "jpeg")[|s|..] == "jpeg"; }
    assert EndsWith(s + "JPG", ImageSuffixes[3]) by { assert (s + "JPG")[|s|..] == "JPG"; }
  }

  /** Upper-case PNG and JPEG are rejected, whatever comes before them. */
  lemma {:induction false} UpperCaseRejected(s: string)
    ensures !IsImageName(s + "PNG") && !IsImageName(s + "JPEG")
  {
    var a, b := s + "PNG", s + "JPEG";
    assert a[|a| - 1] == 'G' && a[|a| - 2] == 'N' && a[|a| - 3] == 'P';
    assert b[|b| - 1] == 'G' && b[|b| - 2] == 'E' && b[|b| - 3] == 'P' && b[|b| - 4] == 'J';
    forall i | 0 <= i < |ImageSuffixes| ensures !EndsWith(a, ImageSuffixes[i]) && !EndsWith(b, ImageSuffixes[i]) {
    }
  }

  /** The existential over the suffix list, spelled out as one test per suffix. */
  lemma {:induction false} IsImageNameCases(name: string)
    ensures IsImageName(name) <==>
      EndsWith(name, "png") || EndsWith(name, "jpg") || EndsWith(name, "jpeg") || EndsWith(name, "JPG")
  {
    if EndsWith(name, "png") { assert EndsWith(name, ImageSuffixes[0]); }
    if EndsWith(name, "jpg") { assert EndsWith(name, ImageSuffixes[1]); }
    if EndsWith(name, "jpeg") { assert EndsWith(name, ImageSuffixes[2]); }
    if EndsWith(name, "JPG") { assert EndsWith(name, ImageSuffixes[3]); }
  }
}
