/** Reading a workflow file in Python's text mode with the default `newline=None`:
    universal newlines turn every `\r\n` and every lone `\r` into `\n`. Writing back
    on a POSIX system stores `\n` as it is. */
module TextRead {

  /** The text `open(path, "r").read()` returns for the stored characters `raw`. */
  function ReadText(raw: string): (text: string)
    ensures |text| <= |raw|
    decreases |raw|
  {
    if raw == [] then []
    else if raw[0] == '\r' then
      if |raw| > 1 && raw[1] == '\n' then "\n" + ReadText(raw[2..]) else "\n" + ReadText(raw[1..])
    else [raw[0]] + ReadText(raw[1..])
  }

  /** No carriage return survives the read. */
  lemma {:induction false} ReadTextHasNoCarriageReturn(raw: string)
    ensures '\r' !in ReadText(raw)
    decreases |raw|
  {
    if raw == [] {
    } else if raw[0] == '\r' {
      if |raw| > 1 && raw[1] == '\n' {
        ReadTextHasNoCarriageReturn(raw[2..]);
      } else {
        ReadTextHasNoCarriageReturn(raw[1..]);
      }
    } else {
      ReadTextHasNoCarriageReturn(raw[1..]);
    }
  }

  /** The read returns the stored characters exactly when they hold no carriage
      return. */
  lemma {:induction false} ReadTextIdentityIff(raw: string)
    ensures ReadText(raw) == raw <==> '\r' !in raw
    decreases |raw|
  {
    if raw == [] {
    } else if raw[0] == '\r' {
      ReadTextHasNoCarriageReturn(raw);
      assert raw[0] in raw;
    } else {
      ReadTextIdentityIff(raw[1..]);
      assert raw == [raw[0]] + raw[1..];
      assert '\r' in raw[1..] ==> '\r' in raw;
      assert ReadText(raw) == raw ==> ReadText(raw)[1..] == raw[1..];
    }
  }

  /** A Windows line ending is read as a single newline, a lone `\r` too. */
  lemma ReadTextLineEndings()
    ensures ReadText("a\r\n") == "a\n" && ReadText("\rb") == "\nb"
  {
    assert "a\r\n"[1..] == "\r\n" && "\r\n"[2..] == [];
    assert ReadText("\r\n") == "\n";
    assert "\rb"[1..] == "b" && "b"[1..] == [];
    assert ReadText("b") == "b";
  }
}
