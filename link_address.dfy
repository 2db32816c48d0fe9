/**
 * `convert_link_address` (system_files/shared_classes.py): turns a path into
 * a form a Windows command line accepts. Every character that is a letter,
 * a digit or one of `\ / _ : - .` is kept, every other character is escaped
 * with a caret `^` in front of it, and finally every `/` becomes `\`.
 */
module LinkAddress {

  import opened Text

  /** Characters copied unescaped. */
  predicate IsSafe(c: char) {
    IsAsciiLetter(c) || IsDigit(c) || c == '\\' || c == '/' || c == '_' || c == ':' || c == '-' || c == '.'
  }

  /** What the loop appends for one character. */
  function EscapeChar(c: char): string {
    if IsSafe(c) then [c] else ['^', c]
  }

  /** The string `dir` the loop builds before the final replacement. */
  function Escaped(d: string): string
    decreases |d|
  {
    if |d| == 0 then "" else EscapeChar(d[0]) + Escaped(d[1..])
  }

  /** `s.replace(from, to)` for one-character arguments. */
  function ReplaceChar(s: string, from: char, to: char): (r: string)
    ensures |r| == |s|
  {
    seq(|s|, i requires 0 <= i < |s| => if s[i] == from then to else s[i])
  }

  /** Number of characters that get a caret. */
  function CountUnsafe(d: string): nat
    decreases |d|
  {
    if |d| == 0 then 0 else (if IsSafe(d[0]) then 0 else 1) + CountUnsafe(d[1..])
  }

  /** Reads an escaped string back: a caret stands for the character after it. */
  function Unescape(s: string): string
    decreases |s|
  {
    if |s| == 0 then ""
    else if s[0] == '^' && |s| >= 2 then [s[1]] + Unescape(s[2..])
    else [s[0]] + Unescape(s[1..])
  }

  method ConvertLinkAddress(d: string) returns (dirWin: string)
    ensures dirWin == ReplaceChar(Escaped(d), '/', '\\')
    ensures |dirWin| == |d| + CountUnsafe(d)
    ensures '/' !in dirWin
  {
    var dir := "";
    for i := 0 to |d|
      invariant dir == Escaped(d[..i])
    {
      EscapedAppend(d[..i], d[i]);
      assert d[..i + 1] == d[..i] + [d[i]];
      dir := dir + EscapeChar(d[i]);
    }
    assert d[..|d|] == d;
    dirWin := ReplaceChar(dir, '/', '\\');
    EscapedLength(d);
  }

  lemma {:induction false} EscapedAppend(d: string, c: char)
    ensures Escaped(d + [c]) == Escaped(d) + EscapeChar(c)
    decreases |d|
  {
    if |d| == 0 {
      assert d + [c] == [c];
    } else {
      EscapedAppend(d[1..], c);
      assert (d + [c])[1..] == d[1..] + [c];
    }
  }

  /** Output length is input length plus one caret per escaped character. */
  lemma {:induction false} EscapedLength(d: string)
    ensures |Escaped(d)| == |d| + CountUnsafe(d)
    decreases |d|
  {
    if |d| > 0 {
      EscapedLength(d[1..]);
    }
  }

  /** Escaping loses nothing: each character comes out as itself or as `^` and itself, in order. */
  lemma {:induction false} UnescapeEscaped(d: string)
    ensures Unescape(Escaped(d)) == d
    decreases |d|
  {
    if |d| > 0 {
      UnescapeEscaped(d[1..]);
      var e := Escaped(d);
      if IsSafe(d[0]) {
        assert e[0] == d[0] && e[1..] == Escaped(d[1..]);
      } else {
        assert e[0] == '^' && e[1] == d[0] && e[2..] == Escaped(d[1..]);
      }
    }
  }

  /** A path made only of kept characters, none of them `/`, is returned as it is. */
  lemma {:induction false} SafePathUnchanged(d: string)
    requires forall i :: 0 <= i < |d| ==> IsSafe(d[i]) && d[i] != '/'
    ensures ReplaceChar(Escaped(d), '/', '\\') == d
    decreases |d|
  {
    if |d| > 0 {
      SafePathUnchanged(d[1..]);
      var e := Escaped(d);
      assert e == [d[0]] + Escaped(d[1..]);
      assert ReplaceChar(e, '/', '\\') == [d[0]] + ReplaceChar(Escaped(d[1..]), '/', '\\');
    }
  }

  /** Splitting a string before the replacement splits the result. */
  lemma ReplaceConcat(a: string, b: string, from: char, to: char)
    ensures ReplaceChar(a + b, from, to) == ReplaceChar(a, from, to) + ReplaceChar(b, from, to)
  {
  }

  /** Both slashes are kept as they are, so replacing before or after escaping comes to the same. */
  lemma {:induction false} ReplaceEscaped(d: string)
    ensures ReplaceChar(Escaped(d), '/', '\\') == Escaped(ReplaceChar(d, '/', '\\'))
    decreases |d|
  {
    if |d| > 0 {
      var r := ReplaceChar(d, '/', '\\');
      ReplaceEscaped(d[1..]);
      ReplaceConcat(EscapeChar(d[0]), Escaped(d[1..]), '/', '\\');
      assert r[1..] == ReplaceChar(d[1..], '/', '\\');
      assert ReplaceChar(EscapeChar(d[0]), '/', '\\') == EscapeChar(r[0]);
    }
  }

  /**
   * Two paths convert alike exactly when they agree once every `/` is read
   * as `\`: the two slashes can no longer be told apart, and no other pair
   * of paths collides.
   */
  lemma SlashesCollide(a: string, b: string)
    ensures ReplaceChar(Escaped(a), '/', '\\') == ReplaceChar(Escaped(b), '/', '\\')
            <==> ReplaceChar(a, '/', '\\') == ReplaceChar(b, '/', '\\')
  {
    ReplaceEscaped(a);
    ReplaceEscaped(b);
    UnescapeEscaped(ReplaceChar(a, '/', '\\'));
    UnescapeEscaped(ReplaceChar(b, '/', '\\'));
  }
}
