/** The Text Normalizer: `replace_newlines`, `decode_utf8`, and the UTF-8
    encoding that `process_script` applies to code held as `str`. */
module Newlines {

  newtype byte = b: int | 0 <= b < 256

  const CR: byte := 13
  const LF: byte := 10

  /** What the code field of a record holds: `bytes`, a `str`, or any other
      object the decoder produced (a nil, a number). */
  datatype Content = Bytes(bytes: seq<byte>) | Text(text: string) | Other

  /** `s.replace(cr + lf, lf)`: one left-to-right pass that replaces each
      `cr` `lf` pair it meets by `lf`. */
  function ReplaceCrlf<T(==)>(s: seq<T>, cr: T, lf: T): seq<T> {
    if |s| >= 2 && s[0] == cr && s[1] == lf then [lf] + ReplaceCrlf(s[2..], cr, lf)
    else if s == [] then []
    else [s[0]] + ReplaceCrlf(s[1..], cr, lf)
  }

  /** The number of positions `i` with `s[i] == cr` and `s[i + 1] == lf`. */
  function CrlfCount<T(==)>(s: seq<T>, cr: T, lf: T): nat {
    if |s| < 2 then 0
    else (if s[0] == cr && s[1] == lf then 1 else 0) + CrlfCount(s[1..], cr, lf)
  }

  /** `replace_newlines(c)`: CRLF normalisation of `bytes`; anything else is
      returned as it is. */
  function ReplaceNewlines(c: Content): Content {
    match c
    case Bytes(b) => Bytes(ReplaceCrlf(b, CR, LF))
    case _ => c
  }

  /** `decode_utf8(c)`: `bytes` go through the codec `decode` (CPython's
      UTF-8 decoder with `errors="replace"`); anything else is returned as it is. */
  function DecodeUtf8(decode: seq<byte> -> string, c: Content): Content {
    match c
    case Bytes(b) => Text(decode(b))
    case _ => c
  }

  /** The UTF-8 encoding of one Unicode scalar value (section 3 of RFC 3629). */
  function EncodeChar(c: char): (bs: seq<byte>)
    ensures 1 <= |bs| <= 4
    ensures c as int < 0x80 ==> bs == [c as int as byte]
    ensures c as int >= 0x80 ==> forall i :: 0 <= i < |bs| ==> bs[i] >= 0x80
  {
    var v := c as int;
    if v < 0x80 then [v as byte]
    else if v < 0x800 then [(0xC0 + v / 0x40) as byte, (0x80 + v % 0x40) as byte]
    else if v < 0x10000 then
      [(0xE0 + v / 0x1000) as byte, (0x80 + v / 0x40 % 0x40) as byte, (0x80 + v % 0x40) as byte]
    else
      [(0xF0 + v / 0x40000) as byte, (0x80 + v / 0x1000 % 0x40) as byte,
       (0x80 + v / 0x40 % 0x40) as byte, (0x80 + v % 0x40) as byte]
  }

  /** `s.encode("utf-8")`. */
  function Utf8Encode(s: string): (bs: seq<byte>)
    ensures |s| <= |bs| <= 4 * |s|
  {
    if s == [] then [] else EncodeChar(s[0]) + Utf8Encode(s[1..])
  }

  // ---------------------------------------------------------------- lemmas

  /** Each replacement removes one element: the output is shorter than the
      input by the number of `cr` `lf` pairs in the input. */
  lemma {:induction false} ReplaceCrlfLength<T>(s: seq<T>, cr: T, lf: T)
    requires cr != lf
    ensures |ReplaceCrlf(s, cr, lf)| == |s| - CrlfCount(s, cr, lf)
  {
    if |s| >= 2 && s[0] == cr && s[1] == lf {
      ReplaceCrlfLength(s[2..], cr, lf);
      assert s[1..][1..] == s[2..];
    } else if s != [] {
      ReplaceCrlfLength(s[1..], cr, lf);
    }
  }

  /** The number of `lf`s is preserved. */
  lemma {:induction false} ReplaceCrlfKeepsLf<T>(s: seq<T>, cr: T, lf: T)
    requires cr != lf
    ensures multiset(ReplaceCrlf(s, cr, lf))[lf] == multiset(s)[lf]
  {
    if |s| >= 2 && s[0] == cr && s[1] == lf {
      ReplaceCrlfKeepsLf(s[2..], cr, lf);
      assert s == [cr, lf] + s[2..];
    } else if s != [] {
      ReplaceCrlfKeepsLf(s[1..], cr, lf);
      assert s == [s[0]] + s[1..];
    }
  }

  /** The input comes back unchanged exactly when it holds no `cr` `lf` pair. */
  lemma {:induction false} ReplaceCrlfUnchangedIff<T>(s: seq<T>, cr: T, lf: T)
    requires cr != lf
    ensures ReplaceCrlf(s, cr, lf) == s <==> CrlfCount(s, cr, lf) == 0
  {
    ReplaceCrlfLength(s, cr, lf);
    if CrlfCount(s, cr, lf) == 0 && s != [] {
      ReplaceCrlfUnchangedIff(s[1..], cr, lf);
      assert s == [s[0]] + s[1..];
    }
  }

  /** `replace_newlines` on any value: `bytes` stay `bytes`, lose one byte
      per CRLF pair, keep every LF, and come back unchanged exactly when they
      hold no CRLF; a `str` or any other value comes back as it is. */
  lemma ReplaceNewlinesOutcome(c: Content)
    ensures c.Bytes? ==>
      && ReplaceNewlines(c).Bytes?
      && |ReplaceNewlines(c).bytes| == |c.bytes| - CrlfCount(c.bytes, CR, LF)
      && multiset(ReplaceNewlines(c).bytes)[LF] == multiset(c.bytes)[LF]
      && (ReplaceNewlines(c) == c <==> CrlfCount(c.bytes, CR, LF) == 0)
    ensures !c.Bytes? ==> ReplaceNewlines(c) == c
  {
    if c.Bytes? {
      ReplaceCrlfLength(c.bytes, CR, LF);
      ReplaceCrlfKeepsLf(c.bytes, CR, LF);
      ReplaceCrlfUnchangedIff(c.bytes, CR, LF);
    }
  }

  /** One pass does not remove every CRLF: `b"\r\r\n"` becomes `b"\r\n"`. */
  lemma CrlfCanSurvive()
    ensures ReplaceCrlf([CR, CR, LF], CR, LF) == [CR, LF]
    ensures CrlfCount([CR, LF], CR, LF) == 1
  {
    var input: seq<byte> := [CR, CR, LF];
    assert input[1..] == [CR, LF];
    assert ReplaceCrlf([CR, LF], CR, LF) == [LF] + ReplaceCrlf([], CR, LF);
    assert ReplaceCrlf(input, CR, LF) == [CR] + ReplaceCrlf(input[1..], CR, LF);
    assert [CR, LF][1..] == [LF];
  }

  /** `ReplaceCrlf` passes over a stretch that holds no `cr`. */
  lemma {:induction false} ReplaceCrlfSkips<T>(a: seq<T>, b: seq<T>, cr: T, lf: T)
    requires cr !in a
    ensures ReplaceCrlf(a + b, cr, lf) == a + ReplaceCrlf(b, cr, lf)
  {
    if a != [] {
      ReplaceCrlfSkips(a[1..], b, cr, lf);
      assert a[0] != cr;
      assert (a + b)[0] == a[0];
      assert (a + b)[1..] == a[1..] + b;
      assert ReplaceCrlf(a + b, cr, lf) == [a[0]] + ReplaceCrlf(a[1..] + b, cr, lf);
      assert [a[0]] + (a[1..] + ReplaceCrlf(b, cr, lf)) == a + ReplaceCrlf(b, cr, lf);
    } else {
      assert a + b == b;
    }
  }

  /** Only `'\r'` encodes to a byte `13` and only `'\n'` starts with a byte `10`. */
  lemma EncodeCharControls(c: char)
    ensures c == '\r' ==> EncodeChar(c) == [CR]
    ensures c == '\n' ==> EncodeChar(c) == [LF]
    ensures c != '\r' ==> CR !in EncodeChar(c)
    ensures c != '\n' ==> EncodeChar(c)[0] != LF
  {
  }

  /** Encoding a `str` and then normalising the bytes is the same as
      normalising the `str` and then encoding it: `str` code gets exactly the
      CRLF treatment that `bytes` code gets. */
  lemma {:induction false} EncodeThenReplace(s: string)
    ensures ReplaceCrlf(Utf8Encode(s), CR, LF) == Utf8Encode(ReplaceCrlf(s, '\r', '\n'))
  {
    if s == [] {
    } else if |s| >= 2 && s[0] == '\r' && s[1] == '\n' {
      EncodeThenReplace(s[2..]);
      EncodeThenReplaceCrlf(s);
    } else if s[0] == '\r' {
      EncodeThenReplace(s[1..]);
      EncodeThenReplaceCr(s);
    } else {
      EncodeThenReplace(s[1..]);
      EncodeThenReplaceOther(s);
    }
  }

  /** The step of `EncodeThenReplace` at a `\r\n` pair. */
  lemma EncodeThenReplaceCrlf(s: string)
    requires |s| >= 2 && s[0] == '\r' && s[1] == '\n'
    requires ReplaceCrlf(Utf8Encode(s[2..]), CR, LF) == Utf8Encode(ReplaceCrlf(s[2..], '\r', '\n'))
    ensures ReplaceCrlf(Utf8Encode(s), CR, LF) == Utf8Encode(ReplaceCrlf(s, '\r', '\n'))
  {
    var rest := s[2..];
    EncodeCharControls('\r');
    EncodeCharControls('\n');
    Utf8EncodeTwo(s);
    ReplaceCrlfAtPair(Utf8Encode(rest), CR, LF);
    Utf8EncodeCons('\n', ReplaceCrlf(rest, '\r', '\n'));
  }

  /** The step of `EncodeThenReplace` at a `\r` that starts no pair. */
  lemma EncodeThenReplaceCr(s: string)
    requires s != [] && s[0] == '\r' && !(|s| >= 2 && s[1] == '\n')
    requires ReplaceCrlf(Utf8Encode(s[1..]), CR, LF) == Utf8Encode(ReplaceCrlf(s[1..], '\r', '\n'))
    ensures ReplaceCrlf(Utf8Encode(s), CR, LF) == Utf8Encode(ReplaceCrlf(s, '\r', '\n'))
  {
    var rest := s[1..];
    EncodeCharControls('\r');
    if rest != [] {
      EncodeCharControls(rest[0]);
    }
    ReplaceCrlfAtLoneCr(Utf8Encode(rest), CR, LF);
    Utf8EncodeCons('\r', ReplaceCrlf(rest, '\r', '\n'));
  }

  /** The step of `EncodeThenReplace` at any other character. */
  lemma EncodeThenReplaceOther(s: string)
    requires s != [] && s[0] != '\r'
    requires ReplaceCrlf(Utf8Encode(s[1..]), CR, LF) == Utf8Encode(ReplaceCrlf(s[1..], '\r', '\n'))
    ensures ReplaceCrlf(Utf8Encode(s), CR, LF) == Utf8Encode(ReplaceCrlf(s, '\r', '\n'))
  {
    EncodeCharControls(s[0]);
    ReplaceCrlfSkips(EncodeChar(s[0]), Utf8Encode(s[1..]), CR, LF);
    Utf8EncodeCons(s[0], ReplaceCrlf(s[1..], '\r', '\n'));
  }

  /** Encoding a string that starts with `c`. */
  lemma Utf8EncodeCons(c: char, s: string)
    ensures Utf8Encode([c] + s) == EncodeChar(c) + Utf8Encode(s)
  {
    assert ([c] + s)[1..] == s;
  }

  /** Encoding the first two characters of `s` one by one. */
  lemma Utf8EncodeTwo(s: string)
    requires |s| >= 2
    ensures Utf8Encode(s) == EncodeChar(s[0]) + EncodeChar(s[1]) + Utf8Encode(s[2..])
  {
    assert s[1..][1..] == s[2..];
  }

  /** `ReplaceCrlf` turns a leading pair into one `lf`. */
  lemma ReplaceCrlfAtPair<T>(s: seq<T>, cr: T, lf: T)
    ensures ReplaceCrlf([cr] + [lf] + s, cr, lf) == [lf] + ReplaceCrlf(s, cr, lf)
  {
    assert ([cr] + [lf] + s)[2..] == s;
  }

  /** `ReplaceCrlf` keeps a leading `cr` that no `lf` follows. */
  lemma ReplaceCrlfAtLoneCr<T>(s: seq<T>, cr: T, lf: T)
    requires s == [] || s[0] != lf
    ensures ReplaceCrlf([cr] + s, cr, lf) == [cr] + ReplaceCrlf(s, cr, lf)
  {
    assert ([cr] + s)[1..] == s;
  }
}
