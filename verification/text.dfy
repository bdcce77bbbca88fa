/** The few java.lang.String operations the backend relies on, over Dafny strings. */
module Text {

  /** The length JPA gives a `String` column that declares none: `VARCHAR(255)`. */
  const DefaultColumnLength := 255

  /** `s.lastIndexOf(c)`: the greatest index holding `c`, or -1 when there is none. */
  function LastIndexOf(s: string, c: char): (r: int)
    ensures -1 <= r < |s|
    ensures r == -1 <==> c !in s
    ensures r >= 0 ==> s[r] == c && c !in s[r + 1..]
  {
    if |s| == 0 then -1
    else if s[|s| - 1] == c then |s| - 1
    else LastIndexOf(s[..|s| - 1], c)
  }

  /** The last occurrence of `c` in `prefix + [c] + tail` is the one between them when `tail` has none. */
  lemma {:induction false} LastIndexOfJoin(prefix: string, c: char, tail: string)
    requires c !in tail
    ensures LastIndexOf(prefix + [c] + tail, c) == |prefix|
  {
    var s := prefix + [c] + tail;
    if tail != [] {
      assert s[..|s| - 1] == prefix + [c] + tail[..|tail| - 1];
      LastIndexOfJoin(prefix, c, tail[..|tail| - 1]);
    }
  }

  /** `Character.toLowerCase` restricted to ASCII letters. */
  function LowerChar(c: char): (r: char)
    ensures 'A' <= c <= 'Z' ==> 'a' <= r <= 'z' && r as int - c as int == 32
    ensures !('A' <= c <= 'Z') ==> r == c
  {
    if 'A' <= c <= 'Z' then (c as int + 32) as char else c
  }

  /** `s.toLowerCase()`, letter by letter. */
  function ToLower(s: string): (r: string)
    ensures |r| == |s|
    ensures forall i | 0 <= i < |s| :: r[i] == LowerChar(s[i])
  {
    seq(|s|, i requires 0 <= i < |s| => LowerChar(s[i]))
  }

  /** Lowering never creates or removes a given non-letter character. */
  lemma ToLowerKeepsNonLetter(s: string, c: char)
    requires !('A' <= c <= 'Z') && !('a' <= c <= 'z')
    ensures forall i | 0 <= i < |s| :: (ToLower(s)[i] == c <==> s[i] == c)
  {
  }

  /** Lowering twice is lowering once. */
  lemma ToLowerIdempotent(s: string)
    ensures ToLower(ToLower(s)) == ToLower(s)
  {
  }

  /** The characters `String.trim()` strips: every code point up to U+0020. */
  predicate IsTrimmed(c: char) {
    c <= ' '
  }

  /** `s.trim()`: `s` without its leading and trailing characters up to U+0020. */
  function Trim(s: string): string {
    TrimEnd(TrimStart(s))
  }

  function TrimStart(s: string): string {
    if |s| > 0 && IsTrimmed(s[0]) then TrimStart(s[1..]) else s
  }

  function TrimEnd(s: string): string {
    if |s| > 0 && IsTrimmed(s[|s| - 1]) then TrimEnd(s[..|s| - 1]) else s
  }

  /** True when some character of `s` survives `trim()`. */
  predicate HasVisible(s: string) {
    exists i | 0 <= i < |s| :: !IsTrimmed(s[i])
  }

  /** `s.trim().isEmpty()` holds exactly when every character of `s` is at most U+0020. */
  lemma {:induction false} TrimEmptyIff(s: string)
    ensures Trim(s) == "" <==> !HasVisible(s)
  {
    TrimStartEmptyIff(s);
    var t := TrimStart(s);
    if t != "" {
      TrimStartKeepsFirst(s);
      TrimEndKeepsFirst(t);
    }
  }

  lemma {:induction false} TrimStartEmptyIff(s: string)
    ensures TrimStart(s) == "" <==> !HasVisible(s)
  {
    if |s| > 0 && IsTrimmed(s[0]) {
      TrimStartEmptyIff(s[1..]);
      assert HasVisible(s) <==> HasVisible(s[1..]) by {
        if HasVisible(s) {
          var i :| 0 <= i < |s| && !IsTrimmed(s[i]);
          assert s[1..][i - 1] == s[i];
        }
        if HasVisible(s[1..]) {
          var i :| 0 <= i < |s[1..]| && !IsTrimmed(s[1..][i]);
          assert s[i + 1] == s[1..][i];
        }
      }
    } else if |s| > 0 {
      assert !IsTrimmed(s[0]);
    }
  }

  /** A non-empty `TrimStart(s)` begins with a visible character of `s`. */
  lemma {:induction false} TrimStartKeepsFirst(s: string)
    ensures TrimStart(s) != "" ==> !IsTrimmed(TrimStart(s)[0])
  {
    if |s| > 0 && IsTrimmed(s[0]) {
      TrimStartKeepsFirst(s[1..]);
    }
  }

  /** `TrimEnd` never strips a string whose first character is visible down to nothing. */
  lemma {:induction false} TrimEndKeepsFirst(s: string)
    requires s != "" && !IsTrimmed(s[0])
    ensures TrimEnd(s) != ""
  {
    if IsTrimmed(s[|s| - 1]) {
      TrimEndKeepsFirst(s[..|s| - 1]);
    }
  }

  /** `Character.isWhitespace`: the Unicode space, line and paragraph separators other than the
      no-break spaces, plus the ASCII controls U+0009..U+000D and U+001C..U+001F. */
  predicate IsWhitespace(c: char) {
    || '\t' <= c <= '\r'
    || '\U{1C}' <= c <= ' '
    || c == '\U{1680}'
    || ('\U{2000}' <= c <= '\U{200A}' && c != '\U{2007}')
    || c == '\U{2028}' || c == '\U{2029}' || c == '\U{205F}' || c == '\U{3000}'
  }

  /** `s.isBlank()`: empty, or whitespace only. */
  predicate IsBlank(s: string) {
    forall i | 0 <= i < |s| :: IsWhitespace(s[i])
  }
}
