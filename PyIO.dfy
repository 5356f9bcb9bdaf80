/** Python's text-mode file reading. A file opened with `open(name, 'r')`
    uses universal newlines: `"\r\n"` and a lone `'\r'` both read as `'\n'`.
    Writing with `open(name, 'w')` on a POSIX system stores the text as is. */
module PyIO {

  /** The text `f.read()` returns for a file holding the characters `s`. */
  function ReadBack(s: string): (r: string)
    ensures '\r' !in r
    ensures |r| <= |s|
    ensures r == [] <==> s == []
    decreases |s|
  {
    if s == [] then []
    else if s[0] == '\r' then
      var rest := if |s| > 1 && s[1] == '\n' then s[2..] else s[1..];
      "\n" + ReadBack(rest)
    else [s[0]] + ReadBack(s[1..])
  }

  /** A text comes back from the file unchanged exactly when it holds no
      carriage return. */
  lemma {:induction false} ReadBackIdentity(s: string)
    ensures ReadBack(s) == s <==> '\r' !in s
    decreases |s|
  {
    if s != [] && '\r' !in s {
      assert s[0] != '\r';
      assert '\r' !in s[1..];
      ReadBackIdentity(s[1..]);
      assert s == [s[0]] + s[1..];
    }
  }

  /** Reading back what was read back changes nothing more. */
  lemma ReadBackIdempotent(s: string)
    ensures ReadBack(ReadBack(s)) == ReadBack(s)
  {
    ReadBackIdentity(ReadBack(s));
  }

  /** The same text with Windows line endings: every `'\n'` becomes `"\r\n"`. */
  function ToCrlf(s: string): string
    decreases |s|
  {
    if s == [] then []
    else if s[0] == '\n' then "\r\n" + ToCrlf(s[1..])
    else [s[0]] + ToCrlf(s[1..])
  }

  /** Converting the line endings of a text to `"\r\n"` is invisible to a
      text-mode read. */
  lemma {:induction false} ReadBackCrlf(s: string)
    requires '\r' !in s
    ensures ReadBack(ToCrlf(s)) == s
    decreases |s|
  {
    if s != [] {
      assert '\r' !in s[1..];
      ReadBackCrlf(s[1..]);
      var t := ToCrlf(s[1..]);
      if s[0] == '\n' {
        assert ("\r\n" + t)[2..] == t;
      } else {
        assert ([s[0]] + t)[1..] == t;
      }
      assert s == [s[0]] + s[1..];
    }
  }

  /** Both kinds of carriage return read as a newline. */
  lemma ReadBackExamples()
    ensures ReadBack("a\r\nb") == "a\nb"
    ensures ReadBack("a\rb") == "a\nb"
  {
    assert "a\r\nb"[1..] == "\r\nb";
    assert "\r\nb"[2..] == "b";
    assert "a\rb"[1..] == "\rb";
    assert "\rb"[1..] == "b";
  }
}
