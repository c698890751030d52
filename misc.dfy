/**
 * String helpers of the toolkit: the extension of a file name, Java's
 * notion of a blank string, US-locale lower-casing of the letters that
 * colour-space names use, and the random name suffix.
 */
module Misc {
  import opened Errors

  /** The alphabet of random name suffixes: upper-case, lower-case, digits. */
  const CHARACTERS: string := "ABCDEFGHIJKLMNOPQRSTUVWXYZabcdefghijklmnopqrstuvwxyz0123456789"

  /** Character.isWhitespace: the ASCII controls and the Unicode space separators other than no-break spaces. */
  predicate IsWhitespace(c: char) {
    || c == ' ' || c == '\t' || c == '\n' || c == '\U{000B}' || c == '\U{000C}' || c == '\r'
    || ('\U{001C}' <= c <= '\U{001F}')
    || c == '\U{1680}' || ('\U{2000}' <= c <= '\U{2006}') || ('\U{2008}' <= c <= '\U{200A}')
    || c == '\U{2028}' || c == '\U{2029}' || c == '\U{205F}' || c == '\U{3000}'
  }

  /** String.isBlank: empty, or white space only. */
  predicate IsBlank(s: string) {
    forall i :: 0 <= i < |s| ==> IsWhitespace(s[i])
  }

  /** String.lastIndexOf(char): the last position of c in s, or -1. */
  function LastIndexOf(s: string, c: char): (r: int)
    ensures -1 <= r < |s|
    ensures r == -1 <==> c !in s
    ensures r >= 0 ==> s[r] == c && c !in s[r + 1..]
  {
    if s == [] then -1
    else if s[|s| - 1] == c then |s| - 1
    else
      var r := LastIndexOf(s[..|s| - 1], c);
      assert s == s[..|s| - 1] + [s[|s| - 1]];
      if r >= 0 then
        assert s[r + 1..] == s[..|s| - 1][r + 1..] + [s[|s| - 1]];
        r
      else r
  }

  /**
   * getFileExtension(fileName): the text after the last '.', or "" for a
   * null or blank name and for a name without a '.'.
   */
  function GetFileExtension(fileName: Option<string>): (r: string)
    ensures '.' !in r
    ensures fileName.None? || IsBlank(fileName.value) || '.' !in fileName.value ==> r == ""
    ensures fileName.Some? ==> |r| <= |fileName.value| && r == fileName.value[|fileName.value| - |r|..]
    ensures fileName.Some? && !IsBlank(fileName.value) && '.' in fileName.value ==>
      |r| < |fileName.value| && fileName.value == fileName.value[..|fileName.value| - |r| - 1] + "." + r
  {
    if fileName.None? || |fileName.value| == 0 || IsBlank(fileName.value) then ""
    else
      var name := fileName.value;
      var lastDotIndex := LastIndexOf(name, '.');
      if lastDotIndex == -1 then ""
      else
        assert name == name[..lastDotIndex] + "." + name[lastDotIndex + 1..];
        name[lastDotIndex + 1..]
  }

  /** A stem, a dot and a dot-free extension give back that extension. */
  lemma ExtensionOfJoin(stem: string, extension: string)
    requires '.' !in extension
    ensures GetFileExtension(Some(stem + "." + extension)) == extension
  {
    var name := stem + "." + extension;
    assert name[|stem|] == '.' && !IsWhitespace('.');
    assert name[|stem| + 1..] == extension;
  }

  /** Character.toLowerCase in the US locale for the ASCII letters; other characters are kept. */
  function LowerCase(c: char): char {
    if 'A' <= c <= 'Z' then (c as int + 32) as char else c
  }

  /**
   * String.toLowerCase(Locale.US) on the characters that can spell "rgb" or
   * "hsv": no ASCII capital is left, every capital becomes the letter 32 code
   * points above it, and every other character is kept.
   */
  function ToLowerCase(s: string): (r: string)
    ensures |r| == |s|
    ensures forall i :: 0 <= i < |r| ==> !('A' <= r[i] <= 'Z')
    ensures forall i :: 0 <= i < |s| && !('A' <= s[i] <= 'Z') ==> r[i] == s[i]
    ensures forall i :: 0 <= i < |s| && 'A' <= s[i] <= 'Z' ==> r[i] as int == s[i] as int + 32
  {
    seq(|s|, i requires 0 <= i < |s| => LowerCase(s[i]))
  }

  /** Lower-casing is idempotent and spells "rgb" exactly for the case variants of "rgb". */
  lemma LowerCaseOfRgb(s: string)
    ensures ToLowerCase(ToLowerCase(s)) == ToLowerCase(s)
    ensures ToLowerCase(s) == "rgb" <==>
      |s| == 3 && (s[0] == 'r' || s[0] == 'R') && (s[1] == 'g' || s[1] == 'G') && (s[2] == 'b' || s[2] == 'B')
  {
    if |s| == 3 && (s[0] == 'r' || s[0] == 'R') && (s[1] == 'g' || s[1] == 'G') && (s[2] == 'b' || s[2] == 'B') {
      assert ToLowerCase(s) == "rgb";
    }
  }

  /**
   * getRandomString(length): `length` characters drawn from CHARACTERS; the
   * random index of each draw is an arbitrary choice in [0, 62).
   */
  method GetRandomString(length: int) returns (res: Result<string>)
    ensures res.Ok? <==> length > 0
    ensures res.Err? ==> res.error == IllegalArgument("Length must be greater than 0.")
    ensures res.Ok? ==> |res.value| == length && forall i :: 0 <= i < |res.value| ==> res.value[i] in CHARACTERS
  {
    if length <= 0 {
      return Err(IllegalArgument("Length must be greater than 0."));
    }
    var builder := "";
    for i := 0 to length
      invariant |builder| == i
      invariant forall m :: 0 <= m < i ==> builder[m] in CHARACTERS
    {
      var randomIndex :| 0 <= randomIndex < |CHARACTERS|;
      builder := builder + [CHARACTERS[randomIndex]];
    }
    res := Ok(builder);
  }
}
