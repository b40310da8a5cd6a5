/**
 * File names: ASCII lowercasing, `pathlib`'s suffix of a name, and the
 * supported-extension test `is_image` of scripts/generate_manifest.py.
 */
module Names {

  /** Lowercases one character; only `A`..`Z` change. */
  function LowerChar(c: char): char
  {
    if 'A' <= c <= 'Z' then (c as int + 32) as char else c
  }

  /** `str.lower`, restricted to ASCII letters. */
  function Lower(s: string): (r: string)
    ensures |r| == |s|
  {
    if |s| == 0 then "" else Lower(s[..|s| - 1]) + [LowerChar(s[|s| - 1])]
  }

  /** Lowercasing keeps the length and works character by character. */
  lemma {:induction false} LowerAt(s: string)
    ensures |Lower(s)| == |s|
    ensures forall i :: 0 <= i < |s| ==> Lower(s)[i] == LowerChar(s[i])
  {
    if |s| > 0 {
      LowerAt(s[..|s| - 1]);
    }
  }

  /** Index of the last `.` in `s`, or -1 when there is none (`str.rfind('.')`). */
  function LastDot(s: string): (i: int)
    ensures -1 <= i < |s|
    ensures 0 <= i ==> s[i] == '.'
    ensures forall j :: i < j < |s| ==> s[j] != '.'
  {
    if |s| == 0 then -1
    else if s[|s| - 1] == '.' then |s| - 1
    else LastDot(s[..|s| - 1])
  }

  /**
   * `PurePath.suffix` of a final name component: the text from the last `.`,
   * or "" when that dot is the first or the last character, or absent.
   */
  function Suffix(name: string): string
  {
    var i := LastDot(name);
    if 0 < i < |name| - 1 then name[i..] else ""
  }

  /** `SUPPORTED_EXT`, listed; only membership in it is ever tested. */
  const SupportedExt: seq<string> := [".jpg", ".jpeg", ".png", ".gif", ".webp", ".bmp", ".svg"]

  /** `is_image`: the lowercased suffix of the final name is a supported extension. */
  predicate IsImage(name: string): (b: bool)
    ensures b ==> 4 <= |Suffix(name)| < |name|
  {
    Lower(Suffix(name)) in SupportedExt
  }

  /** A string without capital letters is its own lowercase form. */
  lemma LowerNoCapitals(s: string)
    requires forall i :: 0 <= i < |s| ==> !('A' <= s[i] <= 'Z')
    ensures Lower(s) == s
  {
    LowerAt(s);
  }

  /** The name the scanner skips whatever its case. */
  predicate IsManifestName(name: string)
  {
    Lower(name) == "manifest.json"
  }

  /** A supported extension: a dot, then at least three characters none of which is a dot. */
  ghost predicate ExtensionShape(e: string)
  {
    |e| >= 4 && e[0] == '.' && forall j :: 1 <= j < |e| ==> e[j] != '.'
  }

  /** Every supported extension has that shape and is already lowercase. */
  lemma ExtensionFacts(e: string)
    requires e in SupportedExt
    ensures ExtensionShape(e) && Lower(e) == e
  {
    assert forall i :: 0 <= i < |e| ==> e[i] in ".jpegnifwbmsv";
    LowerNoCapitals(e);
  }

  /** A dot with no dot after it is the last dot. */
  lemma {:induction false} LastDotAt(s: string, p: int)
    requires 0 <= p < |s| && s[p] == '.'
    requires forall j :: p < j < |s| ==> s[j] != '.'
    ensures LastDot(s) == p
    decreases |s|
  {
    if p < |s| - 1 {
      LastDotAt(s[..|s| - 1], p);
    }
  }

  lemma {:induction false} LowerSlice(s: string, a: nat)
    requires a <= |s|
    ensures Lower(s)[a..] == Lower(s[a..])
  {
    var n := |s|;
    if a == n {
      assert s[a..] == "";
    } else {
      var front := s[..n - 1];
      LowerSlice(front, a);
      assert front[a..] == s[a..][..n - 1 - a];
      assert s[a..][n - 1 - a] == s[n - 1];
    }
  }

  lemma LowerIdempotent(s: string)
    ensures Lower(Lower(s)) == Lower(s)
  {
    LowerAt(s);
    LowerAt(Lower(s));
  }

  /** Lowercasing moves no dot, so the last dot stays where it was. */
  lemma {:induction false} LastDotLower(s: string)
    ensures LastDot(Lower(s)) == LastDot(s)
  {
    if |s| > 0 {
      LowerAt(s);
      LastDotLower(s[..|s| - 1]);
    }
  }

  /** Taking the suffix and lowercasing commute. */
  lemma SuffixLower(name: string)
    ensures Suffix(Lower(name)) == Lower(Suffix(name))
  {
    LastDotLower(name);
    var i := LastDot(name);
    if 0 < i < |name| - 1 {
      LowerSlice(name, i);
    }
  }

  /** `is_image` does not depend on the case of the name. */
  lemma IsImageIgnoresCase(name: string)
    ensures IsImage(Lower(name)) <==> IsImage(name)
  {
    SuffixLower(name);
    LowerIdempotent(Suffix(name));
  }

  /** An image name ends with its lowercased suffix, a supported extension. */
  lemma ImageEndsWithExtension(name: string)
    requires IsImage(name)
    ensures var e := Lower(Suffix(name));
      e in SupportedExt && |e| < |name| && Lower(name)[|name| - |e|..] == e
  {
    var i := LastDot(name);
    assert Lower("") == "" && "" !in SupportedExt;
    assert 0 < i < |name| - 1;
    LowerSlice(name, i);
  }

  /** A name whose lowercased form ends with a supported extension, after something, is an image. */
  lemma EndsWithExtensionIsImage(name: string, e: string)
    requires e in SupportedExt && |e| < |name| && Lower(name)[|name| - |e|..] == e
    ensures IsImage(name)
  {
    ExtensionFacts(e);
    EndsWithShapedSuffix(name, e);
  }

  /** A lowercased name ending in a dot and three or more non-dots has that ending as its lowercased suffix. */
  lemma EndsWithShapedSuffix(name: string, e: string)
    requires ExtensionShape(e) && |e| < |name| && Lower(name)[|name| - |e|..] == e
    ensures Lower(Suffix(name)) == e
  {
    var p := |name| - |e|;
    LowerSlice(name, p);
    DotsSurviveLower(name[p..], e);
    SuffixAt(name, p);
  }

  /** The suffix starts at a dot that is neither first nor last and has no dot after it. */
  lemma SuffixAt(name: string, p: int)
    requires 0 < p < |name| - 1
    requires name[p..][0] == '.' && forall j :: 1 <= j < |name| - p ==> name[p..][j] != '.'
    ensures Suffix(name) == name[p..]
  {
    forall j | p < j < |name| ensures name[j] != '.' {
      assert name[j] == name[p..][j - p];
    }
    LastDotAt(name, p);
  }

  /** Lowercasing neither makes nor removes dots. */
  lemma DotsSurviveLower(t: string, e: string)
    requires Lower(t) == e && ExtensionShape(e)
    ensures |t| == |e| && t[0] == '.' && forall j :: 1 <= j < |t| ==> t[j] != '.'
  {
    LowerAt(t);
    assert LowerChar(t[0]) == '.';
    forall j | 1 <= j < |t| ensures t[j] != '.' {
      assert LowerChar(t[j]) == e[j];
    }
  }

  /**
   * `is_image` holds exactly when the lowercased name ends with one of the
   * seven extensions and something stands before it.
   */
  lemma IsImageIffEndsWith(name: string)
    ensures IsImage(name) <==>
      exists e :: e in SupportedExt && |e| < |name| && Lower(name)[|name| - |e|..] == e
  {
    if IsImage(name) {
      ImageEndsWithExtension(name);
    }
    if e :| e in SupportedExt && |e| < |name| && Lower(name)[|name| - |e|..] == e {
      EndsWithExtensionIsImage(name, e);
    }
  }

  /** The manifest's own name never passes `is_image`, so that exclusion never changes the result. */
  lemma ManifestNameIsNotImage(name: string)
    ensures IsManifestName(name) ==> !IsImage(name)
  {
    if IsManifestName(name) {
      var m := "manifest.json";
      assert m[8] == '.' && forall j :: 8 < j < |m| ==> m[j] != '.';
      assert LastDot(m) == 8;
      assert Suffix(m) == ".json";
      SuffixLower(name);
      assert Lower(Suffix(name)) == ".json";
    }
  }

  /** A name with `.tmp` appended has suffix `.tmp` and is never an image. */
  lemma TmpNameIsNotImage(name: string)
    requires name != ""
    ensures Suffix(name + ".tmp") == ".tmp"
    ensures !IsImage(name + ".tmp")
  {
    var t := name + ".tmp";
    assert t[|name|] == '.';
    assert forall j :: |name| < j < |t| ==> t[j] == ".tmp"[j - |name|] != '.';
    assert LastDot(t) == |name|;
    assert t[|name|..] == ".tmp";
    LowerNoCapitals(".tmp");
  }
}
