/** `script_info` and `process_script`: the name and the text of the file
    written for one script record. */
module Script {
  import opened Results
  import opened Text
  import opened Newlines
  import opened Sanitize

  /** The first header line of every extracted script. */
  const EncodingLine: string := "# encoding: utf-8"

  /** The second header line, which carries the script's title as it is. */
  function NameLine(name: string): string {
    "# Name: " + name
  }

  /** Both header lines, joined by a newline. */
  function Header(name: string): string {
    EncodingLine + "\n" + NameLine(name)
  }

  /** `script_info(name, code)`: the two header lines followed by the lines
      of `code`, joined by `\n`, with no newline added at the end. */
  function ScriptInfo(name: string, code: string, breaks: set<char>): string {
    Join([EncodingLine, NameLine(name)] + SplitLines(code, breaks), "\n")
  }

  /** `process_script((identifier, name, code))`: the file name and the file
      text, or the exception the call raises. `str` code is first encoded to
      UTF-8; code that is neither `str` nor `bytes` reaches `splitlines`
      unchanged, which raises. */
  function ProcessScript(decode: seq<byte> -> string, breaks: set<char>, name: string, code: Content)
    : Result<(string, string)>
  {
    var encoded := if code.Text? then Bytes(Utf8Encode(code.text)) else code;
    var decoded := DecodeUtf8(decode, ReplaceNewlines(encoded));
    var filename := SanitizeFilename(name) + ".rb";
    match decoded
    case Text(text) => Ok((filename, ScriptInfo(name, text, breaks)))
    case _ => Err("object has no attribute 'splitlines'")
  }

  // ---------------------------------------------------------------- lemmas

  /** Empty code gives exactly the two header lines. */
  lemma ScriptInfoOfEmptyCode(name: string, breaks: set<char>)
    ensures ScriptInfo(name, [], breaks) == Header(name)
  {
    assert SplitLines([], breaks) == [];
    assert [EncodingLine, NameLine(name)] + [] == [EncodingLine] + [NameLine(name)];
    JoinCons(EncodingLine, [NameLine(name)], "\n");
  }

  /** The text always begins with the header, and the header names the
      script by its title as given. */
  lemma ScriptInfoStartsWithHeader(name: string, code: string, breaks: set<char>)
    ensures |Header(name)| <= |ScriptInfo(name, code, breaks)|
    ensures ScriptInfo(name, code, breaks)[..|Header(name)|] == Header(name)
  {
    var tail := ScriptInfoAfterHeader(name, code, breaks);
    assert ScriptInfo(name, code, breaks)[..|Header(name)|] == (Header(name) + tail)[..|Header(name)|];
  }

  /** What follows the header: nothing, or a newline and the lines of the code. */
  lemma ScriptInfoAfterHeader(name: string, code: string, breaks: set<char>) returns (tail: string)
    ensures ScriptInfo(name, code, breaks) == Header(name) + tail
    ensures tail == if code == [] then [] else "\n" + Join(SplitLines(code, breaks), "\n")
  {
    var lines := SplitLines(code, breaks);
    JoinCons(EncodingLine, [NameLine(name)] + lines, "\n");
    JoinCons(NameLine(name), lines, "\n");
    assert [EncodingLine, NameLine(name)] + lines == [EncodingLine] + ([NameLine(name)] + lines);
    tail := if code == [] then [] else "\n" + Join(lines, "\n");
  }

  /** Read back line by line (when `\n` is a line boundary and the title has
      no `\n`), the text is the two header lines followed by the lines of
      the code. */
  lemma ScriptInfoLines(name: string, code: string, breaks: set<char>)
    requires '\n' in breaks && '\n' !in name
    ensures Split(ScriptInfo(name, code, breaks), '\n') == [EncodingLine, NameLine(name)] + SplitLines(code, breaks)
  {
    var parts := [EncodingLine, NameLine(name)] + SplitLines(code, breaks);
    SplitLinesHaveNoBreaks(code, breaks);
    forall k | 0 <= k < |parts| ensures '\n' !in parts[k] {
      if k >= 2 {
        assert NoneOf(parts[k], breaks);
      }
    }
    SplitJoin(parts, '\n');
  }

  /** Code whose only line boundaries are `\n`s, not at its end, is written
      verbatim after the header. */
  lemma ScriptInfoOfPlainCode(name: string, code: string, breaks: set<char>)
    requires '\n' in breaks
    requires code != [] && code[|code| - 1] != '\n'
    requires NoneOf(code, breaks - {'\n'})
    ensures ScriptInfo(name, code, breaks) == Header(name) + "\n" + code
  {
    SplitLinesOfPlainText(code, breaks);
    JoinSplit(code, '\n');
    var tail := ScriptInfoAfterHeader(name, code, breaks);
  }

  /** `process_script` raises exactly when the code is neither `str` nor
      `bytes`; otherwise the file name is the sanitized title plus `.rb` and
      the text starts with the header naming the unsanitized title. */
  lemma ProcessScriptOutcome(decode: seq<byte> -> string, breaks: set<char>, name: string, code: Content)
    ensures ProcessScript(decode, breaks, name, code).Err? <==> code.Other?
    ensures ProcessScript(decode, breaks, name, code).Ok? ==>
      var (filename, content) := ProcessScript(decode, breaks, name, code).value;
      && filename == SanitizeFilename(name) + ".rb"
      && IsSanitized(filename[..|filename| - 3])
      && |Header(name)| <= |content|
      && content[..|Header(name)|] == Header(name)
  {
    SanitizeIsSafe(name);
    if !code.Other? {
      var text := ProcessScript(decode, breaks, name, code).value.1;
      var decoded := DecodeUtf8(decode, ReplaceNewlines(if code.Text? then Bytes(Utf8Encode(code.text)) else code));
      ScriptInfoStartsWithHeader(name, decoded.text, breaks);
      var filename := SanitizeFilename(name) + ".rb";
      assert filename[..|filename| - 3] == SanitizeFilename(name);
    }
  }

  /** Byte code is CRLF-normalised and then decoded: the decoder sees one
      byte less per CRLF pair and every LF of the input, and byte code
      without a CRLF reaches the decoder as it is. */
  lemma ProcessScriptOfBytes(decode: seq<byte> -> string, breaks: set<char>, name: string, code: seq<byte>)
    ensures var b := ReplaceCrlf(code, CR, LF);
      && |b| == |code| - CrlfCount(code, CR, LF)
      && multiset(b)[LF] == multiset(code)[LF]
      && ProcessScript(decode, breaks, name, Bytes(code))
         == Ok((SanitizeFilename(name) + ".rb", ScriptInfo(name, decode(b), breaks)))
    ensures CrlfCount(code, CR, LF) == 0 ==>
      ProcessScript(decode, breaks, name, Bytes(code))
      == Ok((SanitizeFilename(name) + ".rb", ScriptInfo(name, decode(code), breaks)))
  {
    ReplaceNewlinesOutcome(Bytes(code));
  }

  /** `str` code gets the same CRLF normalisation as `bytes` code: with a
      decoder that inverts the encoder, as CPython's does on well-formed
      input, the text is built from the `str` with its CRLFs replaced. */
  lemma ProcessScriptOfText(decode: seq<byte> -> string, breaks: set<char>, name: string, code: string)
    requires forall s :: decode(Utf8Encode(s)) == s
    ensures ProcessScript(decode, breaks, name, Text(code))
         == Ok((SanitizeFilename(name) + ".rb", ScriptInfo(name, ReplaceCrlf(code, '\r', '\n'), breaks)))
  {
    EncodeThenReplace(code);
  }
}
