/**
 * The URL modifier the robot loader consults for every file a robot
 * description references (RobotModel.jsx, `manager.setURLModifier`):
 * `blob:` URLs pass through; any other reference is reduced to a lowercase
 * base name and looked up case-insensitively among the uploaded files,
 * falling back to the reference itself.
 */
module PathResolver {
  import opened Optional
  import opened Strings
  import opened FileMaps

  /** `url.split('/').pop().split('\\').pop()`. */
  function Basename(ref: string): string
  {
    AfterLast(AfterLast(ref, '/'), '\\')
  }

  lemma BasenameHasNoSeparator(ref: string)
    ensures '/' !in Basename(ref) && '\\' !in Basename(ref)
  {
    var a := AfterLast(ref, '/');
    AfterLastIsLongestSuffix(a, '\\');
    var b := Basename(ref);
    assert forall ch :: ch in b ==> ch in a;
  }

  /** The file name a reference is looked up by. */
  function Normalize(ref: string): (t: string)
  {
    DecodeSpaces(ToLower(Basename(ref)))
  }

  /** A normalised name has no separator, no capital and no `%20` left. */
  lemma NormalizeIsPlainName(ref: string)
    ensures var t := Normalize(ref);
            '/' !in t && '\\' !in t && !HasEncodedSpace(t) && forall ch :: ch in t ==> !IsUpper(ch)
  {
    var b := Basename(ref);
    BasenameHasNoSeparator(ref);
    var lower := ToLower(b);
    DecodeSpacesLeavesNone(lower);
    DecodeSpacesChars(lower);
    forall i | 0 <= i < |lower| ensures lower[i] != '/' && lower[i] != '\\' {
      assert b[i] in b;
    }
  }

  /**
   * The base name is the tail of the reference after its last `/` or `\`:
   * it holds neither separator and is preceded by one unless it is the
   * whole reference.
   */
  lemma BasenameIsLastSegment(ref: string)
    ensures var b := Basename(ref);
            && |b| <= |ref| && b == ref[|ref| - |b|..]
            && '/' !in b && '\\' !in b
            && (|b| < |ref| ==> ref[|ref| - |b| - 1] == '/' || ref[|ref| - |b| - 1] == '\\')
  {
    var a := AfterLast(ref, '/');
    var b := Basename(ref);
    AfterLastIsLongestSuffix(ref, '/');
    AfterLastIsLongestSuffix(a, '\\');
    BasenameHasNoSeparator(ref);
    if |b| < |a| {
      assert ref[|ref| - |b| - 1] == a[|a| - |b| - 1];
    }
  }

  /** Normalising a normalised name changes nothing. */
  lemma NormalizeIdempotent(ref: string)
    ensures Normalize(Normalize(ref)) == Normalize(ref)
  {
    var t := Normalize(ref);
    NormalizeIsPlainName(ref);
    AfterLastNoSeparator(t, '/');
    AfterLastNoSeparator(AfterLast(t, '/'), '\\');
    assert Basename(t) == t;
    forall i | 0 <= i < |t| ensures LowerChar(t[i]) == t[i] {
      assert t[i] in t;
    }
    assert ToLower(t) == t;
    DecodeSpacesNoop(t);
  }

  /** Key `i` of `m`, lower-cased, is `target`. */
  predicate KeyMatches(m: FileMap, i: int, target: string)
  {
    0 <= i < |m| && ToLower(m[i].key) == target
  }

  /** No key of `m` matches `target`. */
  predicate NoMatch(m: FileMap, target: string)
  {
    forall j :: 0 <= j < |m| ==> !KeyMatches(m, j, target)
  }

  /** Key `j` is the first, in key order, to match `target`. */
  predicate FirstMatch(m: FileMap, target: string, j: int)
  {
    KeyMatches(m, j, target) && forall i :: 0 <= i < j ==> !KeyMatches(m, i, target)
  }

  lemma FirstMatchUnique(m: FileMap, target: string)
    ensures forall i, j :: FirstMatch(m, target, i) && FirstMatch(m, target, j) ==> i == j
  {
  }

  /** `Object.keys(m).find(key => key.toLowerCase() === target)`, as a position. */
  function FindKey(m: FileMap, target: string): (r: Option<nat>)
    ensures r.Some? ==> FirstMatch(m, target, r.value)
    ensures r.None? ==> NoMatch(m, target)
    decreases |m|
  {
    if |m| == 0 then None
    else if ToLower(m[0].key) == target then Some(0)
    else
      var r := FindKey(m[1..], target);
      assert forall j :: 1 <= j < |m| ==> (KeyMatches(m, j, target) <==> KeyMatches(m[1..], j - 1, target)) by {
        forall j | 1 <= j < |m| ensures KeyMatches(m, j, target) <==> KeyMatches(m[1..], j - 1, target) {
          assert m[1..][j - 1] == m[j];
        }
      }
      match r
      case None => None
      case Some(i) => Some(i + 1)
  }

  /**
   * The URL modifier. A found key that is the empty string is falsy in
   * JavaScript, so the reference is returned as if nothing matched.
   */
  function Resolve(m: FileMap, url: string): (r: string)
    ensures StartsWith(url, "blob:") ==> r == url
    ensures r == url || exists i :: 0 <= i < |m| && r == m[i].url
    ensures !StartsWith(url, "blob:") && NoMatch(m, Normalize(url)) ==> r == url
    ensures !StartsWith(url, "blob:") && Normalize(url) == "" ==> r == url
    ensures forall j :: !StartsWith(url, "blob:") && Normalize(url) != "" && FirstMatch(m, Normalize(url), j)
                        ==> r == m[j].url
  {
    if StartsWith(url, "blob:") then url
    else
      var t := Normalize(url);
      FirstMatchUnique(m, t);
      match FindKey(m, t)
      case Some(i) =>
        if m[i].key != "" then m[i].url
        else
          assert t == "";
          url
      case None => url
  }

  /** Two references with the same normalised name resolve alike, or both fall back. */
  lemma ResolveByNameOnly(m: FileMap, a: string, b: string)
    requires !StartsWith(a, "blob:") && !StartsWith(b, "blob:")
    requires Normalize(a) == Normalize(b)
    ensures Resolve(m, a) == Resolve(m, b) || (Resolve(m, a) == a && Resolve(m, b) == b)
  {
  }

  /** The part of `d + [sep] + b` after the last `c`, when `b` has no `c`. */
  lemma AfterLastPastSeparator(d: string, sep: char, b: string, c: char)
    requires c != sep && c !in b
    ensures AfterLast(d + [sep] + b, c) == AfterLast(d, c) + [sep] + b
  {
    var s := d + [sep] + b;
    var k := LastIndexOf(d, c);
    forall j | k < j < |s|
      ensures s[j] != c
    {
      if j < |d| {
        assert s[j] == d[j];
      } else if j > |d| {
        assert s[j] == b[j - |d| - 1];
      }
    }
    LastIndexOfUnique(s, c, k);
    AfterLastIsSlice(s, c);
    AfterLastIsSlice(d, c);
    assert s[k + 1..] == d[k + 1..] + [sep] + b;
  }

  /** Whatever directory precedes a `/` or `\` separator is ignored. */
  lemma BasenameIgnoresDirectory(d: string, sep: char, b: string)
    requires sep == '/' || sep == '\\'
    ensures Basename(d + [sep] + b) == Basename(b)
  {
    if sep == '/' {
      AfterLastJoin(d, '/', b);
    } else if '/' in b {
      var k := LastIndexOf(b, '/');
      var b1, b2 := b[..k], b[k + 1..];
      assert b[k] == '/';
      assert b == b1 + ['/'] + b2;
      assert d + [sep] + b == (d + [sep] + b1) + ['/'] + b2;
      AfterLastJoin(d + [sep] + b1, '/', b2);
      AfterLastJoin(b1, '/', b2);
    } else {
      AfterLastPastSeparator(d, sep, b, '/');
      AfterLastJoin(AfterLast(d, '/'), '\\', b);
      AfterLastNoSeparator(b, '/');
    }
  }

  lemma NormalizeIgnoresDirectory(d: string, sep: char, b: string)
    requires sep == '/' || sep == '\\'
    ensures Normalize(d + [sep] + b) == Normalize(b)
  {
    BasenameIgnoresDirectory(d, sep, b);
  }

  /** Letter case of the reference does not matter. */
  lemma NormalizeIgnoresCase(s: string)
    ensures Normalize(ToLower(s)) == Normalize(s)
  {
    AfterLastToLower(s, '/');
    AfterLastToLower(AfterLast(s, '/'), '\\');
    ToLowerIdempotent(Basename(s));
  }

  /**
   * A stored name holding `\` is never found: keys are lower-cased whole,
   * with no directory stripped, and a normalised reference has no `\`.
   */
  lemma BackslashKeyNeverMatches(m: FileMap, i: int, ref: string)
    requires 0 <= i < |m| && '\\' in m[i].key
    ensures !KeyMatches(m, i, Normalize(ref))
  {
    NormalizeIsPlainName(ref);
    var k := m[i].key;
    var j :| 0 <= j < |k| && k[j] == '\\';
    assert ToLower(k)[j] == '\\';
  }

  /** Lower-casing sends no name but a digit string itself to a digit string. */
  lemma DigitKeyHasNoCaseTwin(k: string, k': string)
    requires AllDigits(k) && ToLower(k') == ToLower(k)
    ensures k' == k
  {
    forall i | 0 <= i < |k| ensures k'[i] == k[i] {
      assert ToLower(k)[i] == k[i];
      assert ToLower(k')[i] == LowerChar(k'[i]);
    }
  }

  /**
   * An all-digit key that matches is the only key that matches, so the
   * order in which keys are tried cannot change which one is found.
   */
  lemma IntegerKeyIsOnlyMatch(m: FileMap, target: string, i: int)
    requires Valid(m) && KeyMatches(m, i, target) && AllDigits(m[i].key)
    ensures forall j :: KeyMatches(m, j, target) ==> j == i
    ensures FindKey(m, target) == Some(i)
  {
    forall j | KeyMatches(m, j, target) ensures j == i {
      DigitKeyHasNoCaseTwin(m[i].key, m[j].key);
    }
  }

  /**
   * References that differ in directory and letter case only resolve alike
   * (or both fall back to themselves).
   */
  lemma ResolveIgnoresDirectoryAndCase(m: FileMap, d1: string, d2: string, b1: string, b2: string)
    requires ToLower(b1) == ToLower(b2)
    requires !StartsWith(d1 + "/" + b1, "blob:") && !StartsWith(d2 + "/" + b2, "blob:")
    ensures var r1, r2 := Resolve(m, d1 + "/" + b1), Resolve(m, d2 + "/" + b2);
            r1 == r2 || (r1 == d1 + "/" + b1 && r2 == d2 + "/" + b2)
  {
    NormalizeIgnoresDirectory(d1, '/', b1);
    NormalizeIgnoresDirectory(d2, '/', b2);
    NormalizeIgnoresCase(b1);
    NormalizeIgnoresCase(b2);
    ResolveByNameOnly(m, d1 + "/" + b1, d2 + "/" + b2);
  }

  /**
   * When every value is a `blob:` URL (as the upload step produces),
   * resolving a resolved reference changes nothing.
   */
  lemma ResolveIdempotent(m: FileMap, url: string)
    requires AllBlobUrls(m)
    ensures Resolve(m, Resolve(m, url)) == Resolve(m, url)
  {
  }
}
