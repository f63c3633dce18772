/** The few .NET string and path operations the claim workflow relies on:
    `char.IsWhiteSpace`, `string.IsNullOrWhiteSpace`, ordinal `Contains`,
    `ToLower` on file extensions, `Path.GetExtension`, `Path.GetFileName`
    and an ordinal ordering of strings. */
module Text {
  import opened Results

  /** `char.IsWhiteSpace`: the Unicode separators plus the control
      characters U+0009..U+000D, U+0085. */
  predicate IsWhiteSpace(ch: char) {
    || ch == ' '
    || ('\t' <= ch <= '\r')
    || ch == '\U{0085}' || ch == '\U{00A0}' || ch == '\U{1680}'
    || ('\U{2000}' <= ch <= '\U{200A}')
    || ch == '\U{2028}' || ch == '\U{2029}' || ch == '\U{202F}'
    || ch == '\U{205F}' || ch == '\U{3000}'
  }

  /** A non-null string made only of white space (the empty string included). */
  predicate IsBlank(s: string) {
    forall i | 0 <= i < |s| :: IsWhiteSpace(s[i])
  }

  /** `string.IsNullOrWhiteSpace`. */
  predicate IsNullOrWhiteSpace(s: Option<string>) {
    s.None? || IsBlank(s.value)
  }

  /** `t` occurs in `s` starting at position `i`. */
  predicate OccursAt(s: string, t: string, i: int) {
    0 <= i <= |s| - |t| && s[i..i + |t|] == t
  }

  /** Ordinal `string.Contains(string)`: `t` occurs somewhere in `s`. */
  predicate Contains(s: string, t: string) {
    exists i | 0 <= i <= |s| - |t| :: OccursAt(s, t, i)
  }

  lemma ContainsPrefix(s: string, t: string)
    requires |t| <= |s| && s[..|t|] == t
    ensures Contains(s, t)
  {
    assert OccursAt(s, t, 0);
  }

  /** An occurrence of a non-empty `t` starts with the first character of `t`. */
  lemma OccurrenceStartsWithHead(s: string, t: string)
    requires |t| > 0
    ensures forall i | OccursAt(s, t, i) :: s[i] == t[0]
  {
    forall i | OccursAt(s, t, i) ensures s[i] == t[0] {
      assert s[i..i + |t|][0] == s[i];
    }
  }

  /** `ToLower` as it acts on the Latin capitals; every other character is
      kept. (Culture-specific lower-casing of other letters is not modelled.) */
  function LowerChar(ch: char): char {
    if 'A' <= ch <= 'Z' then (ch as int + 32) as char else ch
  }

  function ToLower(s: string): (r: string)
    ensures |r| == |s|
    ensures forall i | 0 <= i < |s| :: r[i] == LowerChar(s[i])
  {
    if s == [] then [] else [LowerChar(s[0])] + ToLower(s[1..])
  }

  predicate IsDirectorySeparator(ch: char) {
    ch == '/' || ch == '\\'
  }

  /** `Path.GetExtension`: scanning `path[..i]` from its end, the suffix that
      starts at the last '.', provided that dot is not the last character of
      the path and no directory separator comes after it; otherwise "". */
  function ExtensionScan(path: string, i: nat): (e: string)
    requires i <= |path|
    ensures |e| <= |path|
    decreases i
  {
    if i == 0 then ""
    else if path[i - 1] == '.' then (if i == |path| then "" else path[i - 1..])
    else if IsDirectorySeparator(path[i - 1]) then ""
    else ExtensionScan(path, i - 1)
  }

  function GetExtension(path: string): string {
    ExtensionScan(path, |path|)
  }

  /** What an extension looks like: empty, or a dot followed by at least one
      character, none of them a dot or a directory separator. */
  predicate IsExtensionShaped(e: string) {
    e == [] ||
    (|e| >= 2 && e[0] == '.' &&
     forall k | 1 <= k < |e| :: e[k] != '.' && !IsDirectorySeparator(e[k]))
  }

  lemma {:induction false} ExtensionScanShape(path: string, i: nat)
    requires i <= |path|
    requires forall k | i <= k < |path| :: path[k] != '.' && !IsDirectorySeparator(path[k])
    ensures IsExtensionShaped(ExtensionScan(path, i))
    ensures ExtensionScan(path, i) != [] ==>
              ExtensionScan(path, i) == path[|path| - |ExtensionScan(path, i)|..]
    decreases i
  {
    if i == 0 {
    } else if path[i - 1] == '.' {
      if i < |path| {
        var e := path[i - 1..];
        assert |e| >= 2 && e[0] == '.';
        forall k | 1 <= k < |e| ensures e[k] != '.' && !IsDirectorySeparator(e[k]) {
          assert e[k] == path[i - 1 + k];
        }
      }
    } else if IsDirectorySeparator(path[i - 1]) {
    } else {
      ExtensionScanShape(path, i - 1);
    }
  }

  /** The extension is a suffix of the path and has the shape of an extension. */
  lemma ExtensionIsSuffix(path: string)
    ensures IsExtensionShaped(GetExtension(path))
    ensures GetExtension(path) != [] ==>
              GetExtension(path) == path[|path| - |GetExtension(path)|..]
  {
    ExtensionScanShape(path, |path|);
  }

  /** Gluing any prefix in front of a non-empty extension-shaped suffix leaves
      that suffix as the extension. */
  lemma {:induction false} ExtensionOfSuffix(prefix: string, e: string)
    requires e != [] && IsExtensionShaped(e)
    ensures GetExtension(prefix + e) == e
  {
    var p := prefix + e;
    var n := |p|;
    var k := |e| - 1;
    // Scanning down from the end meets only characters of e[1..] until it
    // reaches the dot e[0], which is not the last character.
    while k > 0
      invariant 0 <= k <= |e| - 1
      invariant ExtensionScan(p, |prefix| + k + 1) == ExtensionScan(p, n)
      decreases k
    {
      assert p[|prefix| + k] == e[k];
      k := k - 1;
    }
    assert p[|prefix|] == '.';
    assert p[|prefix|..] == e;
  }

  /** `Path.GetFileName`: the part of the path after its last directory
      separator (the whole path when there is none). */
  function FileNameScan(path: string, i: nat): (r: string)
    requires i <= |path|
    ensures |r| <= |path|
    decreases i
  {
    if i == 0 then path
    else if IsDirectorySeparator(path[i - 1]) then path[i..]
    else FileNameScan(path, i - 1)
  }

  function GetFileName(path: string): string {
    FileNameScan(path, |path|)
  }

  /** Ordinal (character-code) lexicographic order on strings. */
  predicate Less(a: string, b: string) {
    if a == [] then b != []
    else if b == [] then false
    else if a[0] != b[0] then a[0] < b[0]
    else Less(a[1..], b[1..])
  }

  lemma {:induction false} LessIrreflexive(a: string)
    ensures !Less(a, a)
  {
    if a != [] { LessIrreflexive(a[1..]); }
  }

  lemma {:induction false} LessTransitive(a: string, b: string, c: string)
    requires Less(a, b) && Less(b, c)
    ensures Less(a, c)
  {
    if a != [] && b != [] && c != [] && a[0] == b[0] && b[0] == c[0] {
      LessTransitive(a[1..], b[1..], c[1..]);
    }
  }

  lemma {:induction false} LessTotal(a: string, b: string)
    requires a != b
    ensures Less(a, b) || Less(b, a)
  {
    if a != [] && b != [] && a[0] == b[0] {
      assert a == [a[0]] + a[1..] && b == [b[0]] + b[1..];
      LessTotal(a[1..], b[1..]);
    }
  }
}
