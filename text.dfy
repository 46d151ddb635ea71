/** `String.prototype.trim` as the tracker applies it to the activity name. */
module JsText {

  /** The characters ECMAScript's `trim` removes: WhiteSpace (TAB, VT, FF, SP, NBSP,
      ZWNBSP and the space separators of category Zs) and LineTerminator (LF, CR,
      LS, PS). */
  predicate IsJsSpace(c: char) {
    || c == '\t' || c == '\n' || c == '\U{000B}' || c == '\U{000C}' || c == '\r'
    || c == ' ' || c == '\U{00A0}' || c == '\U{1680}'
    || ('\U{2000}' <= c <= '\U{200A}')
    || c == '\U{2028}' || c == '\U{2029}' || c == '\U{202F}' || c == '\U{205F}'
    || c == '\U{3000}' || c == '\U{FEFF}'
  }

  predicate AllSpace(s: string) {
    forall i :: 0 <= i < |s| ==> IsJsSpace(s[i])
  }

  /** Drops the leading white space: the result is a suffix of `s`, everything cut
      off is white space, and the result does not start with white space. */
  function TrimStart(s: string): (r: string)
    ensures |r| <= |s| && r == s[|s| - |r|..]
    ensures forall i :: 0 <= i < |s| - |r| ==> IsJsSpace(s[i])
    ensures r == [] || !IsJsSpace(r[0])
  {
    if s != [] && IsJsSpace(s[0]) then
      var r := TrimStart(s[1..]);
      assert s[1..][|s| - 1 - |r|..] == s[|s| - |r|..];
      r
    else s
  }

  /** `TrimStart` removes white space only: every other character is kept as many
      times as it occurs. */
  lemma {:induction false} TrimStartKeeps(s: string)
    ensures forall c :: !IsJsSpace(c) ==> multiset(TrimStart(s))[c] == multiset(s)[c]
  {
    if s != [] && IsJsSpace(s[0]) {
      assert s == [s[0]] + s[1..];
      TrimStartKeeps(s[1..]);
    }
  }

  /** Drops the trailing white space: the result is a prefix of `s`, everything cut
      off is white space, and the result does not end with white space. */
  function TrimEnd(s: string): (r: string)
    ensures |r| <= |s| && r == s[..|r|]
    ensures forall i :: |r| <= i < |s| ==> IsJsSpace(s[i])
    ensures r == [] || !IsJsSpace(r[|r| - 1])
  {
    if s != [] && IsJsSpace(s[|s| - 1]) then TrimEnd(s[..|s| - 1]) else s
  }

  /** `TrimEnd` removes white space only. */
  lemma {:induction false} TrimEndKeeps(s: string)
    ensures forall c :: !IsJsSpace(c) ==> multiset(TrimEnd(s))[c] == multiset(s)[c]
  {
    if s != [] && IsJsSpace(s[|s| - 1]) {
      assert s == s[..|s| - 1] + [s[|s| - 1]];
      TrimEndKeeps(s[..|s| - 1]);
    }
  }

  /** `s.trim()`: `s` with white space removed at both ends and nowhere else. */
  function Trim(s: string): (r: string)
    ensures r == [] || (!IsJsSpace(r[0]) && !IsJsSpace(r[|r| - 1]))
  {
    TrimEnd(TrimStart(s))
  }

  /** Trimming leaves nothing exactly when the text is all white space, and keeps
      every other character, as many times as it occurs. */
  lemma TrimKeepsText(s: string)
    ensures Trim(s) == [] <==> AllSpace(s)
    ensures forall c :: !IsJsSpace(c) ==> multiset(Trim(s))[c] == multiset(s)[c]
  {
    var t := TrimStart(s);
    assert AllSpace(s) ==> t == [];
    TrimStartKeeps(s);
    TrimEndKeeps(t);
  }

  /** Trimming twice is trimming once. */
  lemma TrimIdempotent(s: string)
    ensures Trim(Trim(s)) == Trim(s)
  {
    var t := Trim(s);
    assert t == [] || (!IsJsSpace(t[0]) && TrimStart(t) == t);
  }
}
