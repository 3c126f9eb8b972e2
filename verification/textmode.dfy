/**
  Python's text-mode files with the default `newline=None`. Reading turns every line ending, a
  `\r\n` pair or a lone `\r`, into `\n`. Writing turns every `\n` into the line separator of the
  system (`os.linesep`): `\r\n` on Windows, `\n` elsewhere. Any other character passes unchanged.
*/
module TextMode {

  /** `os.linesep` on Windows and on the other systems. */
  const WindowsLineSeparator: string := "\r\n"
  const PosixLineSeparator: string := "\n"

  predicate IsLineSeparator(newline: string) {
    newline == WindowsLineSeparator || newline == PosixLineSeparator
  }

  /** The text `read()` returns for the characters `raw` stored in the file. */
  function ReadText(raw: string): (t: string)
    ensures '\r' !in t
    ensures |t| <= |raw|
    ensures '\r' !in raw ==> t == raw
    decreases |raw|
  {
    if |raw| == 0 then []
    else if raw[0] == '\r' then
      if |raw| >= 2 && raw[1] == '\n' then "\n" + ReadText(raw[2..])
      else "\n" + ReadText(raw[1..])
    else [raw[0]] + ReadText(raw[1..])
  }

  /** The characters `write(t)` stores in the file, with `newline` as the line separator. */
  function WriteText(t: string, newline: string): (raw: string)
    ensures newline == PosixLineSeparator ==> raw == t
    ensures '\n' !in t ==> raw == t
    decreases |t|
  {
    if |t| == 0 then []
    else (if t[0] == '\n' then newline else [t[0]]) + WriteText(t[1..], newline)
  }

  /**
    Reading back what was written gives the written text again, on either system, as long as the
    text holds no carriage return of its own.
  */
  lemma {:induction false} ReadAfterWrite(t: string, newline: string)
    requires '\r' !in t
    requires IsLineSeparator(newline)
    ensures ReadText(WriteText(t, newline)) == t
    decreases |t|
  {
    if |t| > 0 {
      var rest := WriteText(t[1..], newline);
      assert '\r' !in t[1..] by {
        forall k | 0 <= k < |t[1..]| ensures t[1..][k] != '\r' {
          assert t[1..][k] == t[k + 1];
        }
      }
      ReadAfterWrite(t[1..], newline);
      if t[0] == '\n' && newline == WindowsLineSeparator {
        assert WriteText(t, newline) == "\r\n" + rest;
        assert ("\r\n" + rest)[2..] == rest;
      } else if t[0] == '\n' {
        assert WriteText(t, newline) == "\n" + rest;
        assert ("\n" + rest)[1..] == rest;
      } else {
        assert WriteText(t, newline) == [t[0]] + rest;
        assert ([t[0]] + rest)[1..] == rest;
      }
      assert t == [t[0]] + t[1..];
    }
  }

  /** Both line endings of another system read as line feeds. */
  lemma ForeignLineEndingsRead()
    ensures ReadText("a\r\nb") == "a\nb"
    ensures ReadText("a\rb") == "a\nb"
  {
    assert "a\r\nb"[1..][2..] == "b";
    assert "a\rb"[1..][1..] == "b";
  }
}
