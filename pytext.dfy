/**
 * The parts of Python's `str` that the word search relies on.
 *
 * `strip`, `startswith`, `endswith` and `in` are defined here on code-point
 * sequences. Unicode normalisation, case mapping and the `re` engine belong
 * to libraries whose behaviour is not part of this model: they are carried
 * as opaque functions in a `Host` value that every operation receives.
 */
module PyText {

  /** The library functions the word search calls but does not define. */
  datatype Host = Host(
    nfc: string -> string,               // unicodedata.normalize("NFC", s)
    lower: string -> string,             // s.lower()
    reCompiles: string -> bool,          // re.compile(p) raises no error
    reSearch: (string, string) -> bool)  // re.compile(p).search(s) finds a match

  /** The characters for which `str.isspace()` holds. */
  predicate IsSpace(c: char) {
    || ('\t' <= c <= '\r')           // tab, line feed, vertical tab, form feed, carriage return
    || ('\U{1C}' <= c <= '\U{1F}')   // file, group, record and unit separators
    || c == ' '
    || c == '\U{85}'                 // next line
    || c == '\U{A0}'                 // no-break space
    || c == '\U{1680}'               // ogham space mark
    || ('\U{2000}' <= c <= '\U{200A}')
    || c == '\U{2028}' || c == '\U{2029}'
    || c == '\U{202F}' || c == '\U{205F}' || c == '\U{3000}'
  }

  ghost predicate AllSpace(s: string) {
    forall k :: 0 <= k < |s| ==> IsSpace(s[k])
  }

  /** `s.lstrip()` */
  function TrimStart(s: string): string {
    if s != [] && IsSpace(s[0]) then TrimStart(s[1..]) else s
  }

  /** `s.rstrip()` */
  function TrimEnd(s: string): string {
    if s != [] && IsSpace(s[|s| - 1]) then TrimEnd(s[..|s| - 1]) else s
  }

  /** `s.strip()`: whitespace removed from both ends. */
  function Strip(s: string): string {
    TrimEnd(TrimStart(s))
  }

  /** `s.startswith(p)` */
  predicate StartsWith(s: string, p: string) {
    |p| <= |s| && s[..|p|] == p
  }

  /** `s.endswith(p)` */
  predicate EndsWith(s: string, p: string) {
    |p| <= |s| && s[|s| - |p|..] == p
  }

  /** p occurs in s starting at position k. */
  predicate OccursAt(s: string, p: string, k: int) {
    0 <= k <= |s| - |p| && s[k..k + |p|] == p
  }

  /** `p in s`: p occurs somewhere in s as a contiguous run. */
  predicate Contains(s: string, p: string) {
    exists k | 0 <= k <= |s| - |p| :: OccursAt(s, p, k)
  }

  /** The empty needle is found in every string, by all three tests. */
  lemma EmptyNeedle(s: string)
    ensures StartsWith(s, "") && EndsWith(s, "") && Contains(s, "")
  {
    assert OccursAt(s, "", 0);
  }

  /** `lstrip` removes a run of whitespace from the front and stops at a non-space. */
  lemma {:induction false} TrimStartSlice(s: string)
    ensures |TrimStart(s)| <= |s|
    ensures TrimStart(s) == s[|s| - |TrimStart(s)|..] && AllSpace(s[..|s| - |TrimStart(s)|])
    ensures TrimStart(s) != [] ==> !IsSpace(TrimStart(s)[0])
  {
    if s != [] && IsSpace(s[0]) {
      var t := s[1..];
      TrimStartSlice(t);
      var i := |t| - |TrimStart(t)|;
      assert t[i..] == s[i + 1..];
      assert s[..i + 1] == [s[0]] + t[..i];
    } else {
      assert s[..0] == [];
    }
  }

  /** `rstrip` removes a run of whitespace from the back and stops at a non-space. */
  lemma {:induction false} TrimEndSlice(s: string)
    ensures |TrimEnd(s)| <= |s|
    ensures TrimEnd(s) == s[..|TrimEnd(s)|] && AllSpace(s[|TrimEnd(s)|..])
    ensures TrimEnd(s) != [] ==> !IsSpace(TrimEnd(s)[|TrimEnd(s)| - 1])
  {
    if s != [] && IsSpace(s[|s| - 1]) {
      var t := s[..|s| - 1];
      TrimEndSlice(t);
      var j := |TrimEnd(t)|;
      assert t[..j] == s[..j];
      assert s[j..] == t[j..] + [s[|s| - 1]];
    } else {
      assert s[|s|..] == [];
    }
  }

  /** s[i..j] is what remains of s once only whitespace is cut from each end. */
  ghost predicate CutsSpace(s: string, i: int, j: int) {
    0 <= i <= j <= |s| && AllSpace(s[..i]) && AllSpace(s[j..])
  }

  /**
   * `strip` keeps a contiguous middle part of its argument, removes only
   * whitespace, and leaves no whitespace at either end.
   */
  lemma StripTrims(s: string)
    ensures exists i, j :: CutsSpace(s, i, j) && Strip(s) == s[i..j]
    ensures Strip(s) != [] ==> !IsSpace(Strip(s)[0]) && !IsSpace(Strip(s)[|Strip(s)| - 1])
  {
    TrimStartSlice(s);
    var i := |s| - |TrimStart(s)|;
    var t := s[i..];
    TrimEndSlice(t);
    var j := |TrimEnd(t)|;
    SliceOfSlice(s, i, j);
    assert CutsSpace(s, i, i + j);
  }

  lemma SliceOfSlice(s: string, i: nat, j: nat)
    requires i <= |s| && j <= |s| - i
    ensures s[i..][..j] == s[i..i + j] && s[i..][j..] == s[i + j..]
  {
  }
}
