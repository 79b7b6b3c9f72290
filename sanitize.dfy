/** The Name Sanitizer: `sanitize_filename`, which turns a script or folder
    title into one path segment. */
module Sanitize {
  import opened Text

  /** Deleted outright (`[\n\r\t]+` replaced by nothing). */
  const Controls: set<char> := {'\n', '\r', '\t'}

  /** The class `[\/:*?"<>|]`; `\/` is an escaped slash, so the backslash is
      not a member. */
  const Reserved: set<char> := {'/', ':', '*', '?', '"', '<', '>', '|'}

  /** Every character that cannot appear in a sanitized name. */
  const Forbidden: set<char> := {' '} + Controls + Reserved

  /** `sanitize_filename(name)`: spaces to `_`, controls deleted, reserved
      characters to `_`, runs of `_` squeezed, then `_` stripped at both ends. */
  function SanitizeFilename(name: string): string {
    var spaced := ReplaceAll(name, {' '}, '_');
    var flat := RemoveAll(spaced, Controls);
    var safe := ReplaceAll(flat, Reserved, '_');
    StripChars(Squeeze(safe, '_'), {'_'})
  }

  /** What a sanitized name looks like. */
  predicate IsSanitized(s: string) {
    && NoneOf(s, Forbidden)
    && NoRepeat(s, '_')
    && (s == [] || (s[0] != '_' && s[|s| - 1] != '_'))
  }

  /** The pipeline up to the squeeze leaves no forbidden character. */
  lemma SquashedIsSafe(name: string)
    ensures NoneOf(Squeeze(ReplaceAll(RemoveAll(ReplaceAll(name, {' '}, '_'), Controls), Reserved, '_'), '_'), Forbidden)
  {
    var spaced := ReplaceAll(name, {' '}, '_');
    assert NoneOf(spaced, {' '});
    var flat := RemoveAll(spaced, Controls);
    RemoveAllAvoids(spaced, Controls, {' '});
    var safe := ReplaceAll(flat, Reserved, '_');
    assert NoneOf(safe, Forbidden) by {
      forall i | 0 <= i < |safe| ensures safe[i] !in Forbidden {
        assert flat[i] != ' ' && flat[i] !in Controls;
      }
    }
    SqueezeAvoids(safe, '_', Forbidden);
  }

  /** The output contains no space, `\n`, `\r`, `\t`, `/`, `:`, `*`, `?`,
      `"`, `<`, `>` or `|`, no `__`, and neither starts nor ends with `_`. */
  lemma SanitizeIsSafe(name: string)
    ensures IsSanitized(SanitizeFilename(name))
  {
    SquashedIsSafe(name);
    StripKeepsSafe(Squeeze(ReplaceAll(RemoveAll(ReplaceAll(name, {' '}, '_'), Controls), Reserved, '_'), '_'));
  }

  /** Stripping `_` from a squeezed name free of forbidden characters gives a
      sanitized name. */
  lemma StripKeepsSafe(squeezed: string)
    requires NoneOf(squeezed, Forbidden) && NoRepeat(squeezed, '_')
    ensures IsSanitized(StripChars(squeezed, {'_'}))
  {
    var r := StripChars(squeezed, {'_'});
    var a := StripCharsSlice(squeezed, {'_'});
    StripCharsEnds(squeezed, {'_'});
    forall i | 0 <= i < |r| ensures r[i] !in Forbidden {
      assert r[i] == squeezed[a + i];
    }
    forall i | 0 <= i < |r| - 1 ensures !(r[i] == '_' && r[i + 1] == '_') {
      assert r[i] == squeezed[a + i] && r[i + 1] == squeezed[a + i + 1];
    }
  }

  /** Every character other than `_` and the forbidden ones, the backslash
      among them, occurs in the output exactly as often as in the input. */
  lemma SanitizeKeeps(name: string, c: char)
    requires c !in Forbidden && c != '_'
    ensures multiset(SanitizeFilename(name))[c] == multiset(name)[c]
  {
    var spaced := ReplaceAll(name, {' '}, '_');
    ReplaceAllCount(name, {' '}, '_', c);
    var flat := RemoveAll(spaced, Controls);
    RemoveAllCount(spaced, Controls, c);
    var safe := ReplaceAll(flat, Reserved, '_');
    ReplaceAllCount(flat, Reserved, '_', c);
    SqueezeCount(safe, '_', c);
    StripCharsCount(Squeeze(safe, '_'), {'_'}, c);
  }

  /** A backslash in a name survives sanitizing. */
  lemma SanitizeKeepsBackslash(name: string)
    ensures multiset(SanitizeFilename(name))['\\'] == multiset(name)['\\']
  {
    SanitizeKeeps(name, '\\');
  }

  /** Sanitizing never lengthens a name. */
  lemma SanitizeNotLonger(name: string)
    ensures |SanitizeFilename(name)| <= |name|
  {
    var spaced := ReplaceAll(name, {' '}, '_');
    var flat := RemoveAll(spaced, Controls);
    var safe := ReplaceAll(flat, Reserved, '_');
    StripCharsEnds(Squeeze(safe, '_'), {'_'});
  }

  /** The output is empty exactly when every character of the input is a
      forbidden one or `_`. */
  lemma SanitizeEmptyIff(name: string)
    ensures SanitizeFilename(name) == [] <==> forall i :: 0 <= i < |name| ==> name[i] in Forbidden + {'_'}
  {
    if forall i :: 0 <= i < |name| ==> name[i] in Forbidden + {'_'} {
      var spaced := ReplaceAll(name, {' '}, '_');
      var flat := RemoveAll(spaced, Controls);
      var safe := ReplaceAll(flat, Reserved, '_');
      var squeezed := Squeeze(safe, '_');
      assert OnlyOf(spaced, Controls + Reserved + {'_'});
      RemoveAllWithin(spaced, Controls, Controls + Reserved + {'_'});
      assert OnlyOf(safe, {'_'}) by {
        forall i | 0 <= i < |safe| ensures safe[i] == '_' {
          assert flat[i] in Controls + Reserved + {'_'} && flat[i] !in Controls;
        }
      }
      SqueezeWithin(safe, '_', {'_'});
      StripCharsOnlyOf(squeezed, {'_'});
    } else {
      var i :| 0 <= i < |name| && name[i] !in Forbidden + {'_'};
      SanitizeKeeps(name, name[i]);
      assert name[i] in multiset(name);
    }
  }

  /** A name is left unchanged by sanitizing exactly when it already is a
      sanitized name. */
  lemma SanitizeFixedPoint(s: string)
    ensures SanitizeFilename(s) == s <==> IsSanitized(s)
  {
    SanitizeIsSafe(s);
    if IsSanitized(s) {
      SanitizedIsFixed(s);
    }
  }

  /** Every stage of the pipeline leaves a sanitized name as it is. */
  lemma SanitizedIsFixed(s: string)
    requires IsSanitized(s)
    ensures SanitizeFilename(s) == s
  {
    assert NoneOf(s, {' '}) && NoneOf(s, Controls) && NoneOf(s, Reserved) by {
      assert {' '} <= Forbidden && Controls <= Forbidden && Reserved <= Forbidden;
    }
    ReplaceAllKeeps(s, {' '}, '_');
    ReplaceAllKeeps(s, Reserved, '_');
    StripCharsKeepsAll(s, {'_'});
  }

  /** Sanitizing twice is the same as sanitizing once. */
  lemma SanitizeIdempotent(name: string)
    ensures SanitizeFilename(SanitizeFilename(name)) == SanitizeFilename(name)
  {
    SanitizeIsSafe(name);
    SanitizeFixedPoint(SanitizeFilename(name));
  }

  /** A name that starts with a digit keeps that digit as its first character. */
  lemma SanitizeKeepsLeadingDigit(name: string)
    requires name != [] && IsDigit(name[0])
    ensures SanitizeFilename(name) != [] && SanitizeFilename(name)[0] == name[0]
  {
    var spaced := ReplaceAll(name, {' '}, '_');
    var flat := RemoveAll(spaced, Controls);
    var safe := ReplaceAll(flat, Reserved, '_');
    assert safe[0] == name[0];
    StripCharsEnds(Squeeze(safe, '_'), {'_'});
  }
}
