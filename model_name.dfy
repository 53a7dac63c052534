/**
 * The name a downloaded model is configured under, derived from its hub id
 * in `main`: the repository part of the id, lower-cased, reduced to the
 * `llama`/`mistral` family stem when it names one, without `-gguf`, with
 * every character outside `[A-Za-z0-9_-]` turned into `-`, and with `-`
 * and `_` stripped from both ends.
 */
module ModelName {
  import opened Text

  /** `c.isalnum() or c in ['-', '_']`, on ASCII. */
  predicate IsNameChar(c: char) {
    IsAsciiAlnum(c) || c == '-' || c == '_'
  }

  /** The characters `strip('-_')` removes. */
  const NameTrim: set<char> := {'-', '_'}

  /** A finished name: kept characters only, and neither `-` nor `_` at either end. */
  predicate IsCleanName(s: string) {
    && (forall c | c in s :: IsNameChar(c))
    && (|s| == 0 || (s[0] !in NameTrim && s[|s| - 1] !in NameTrim))
  }

  /** `model.id.split('/')[-1].lower()`: the repository part of the id, lower-cased. */
  function RepoName(id: string): (r: string)
    ensures '/' !in r
    ensures forall c | c in r :: !IsAsciiUpper(c)
    ensures |r| <= |id|
    ensures '/' !in id ==> r == Lower(id)
    ensures '/' in id ==> EndsWith(Lower(id), "/" + r)
  {
    var tail := AfterLast(id, "/");
    ContainsSingleChar(tail, '/');
    ContainsSingleChar(id, '/');
    LowerIdempotent(tail);
    if '/' in id then
      LowerEndsWith(id, "/" + tail);
      assert Lower("/" + tail) == "/" + Lower(tail);
      Lower(tail)
    else
      Lower(tail)
  }

  /**
   * `f"llama-{name.split('llama')[-1]}"` when `llama` occurs, else the same
   * with `mistral`, else `name` unchanged: the family name, a dash, and
   * whatever follows the family's last occurrence.
   */
  function Stem(name: string): (r: string)
    ensures Contains(name, "llama") ==>
      IsPrefix("llama-", r) && EndsWith(name, "llama" + r[6..]) && !Contains(r[6..], "llama")
    ensures !Contains(name, "llama") && Contains(name, "mistral") ==>
      IsPrefix("mistral-", r) && EndsWith(name, "mistral" + r[8..]) && !Contains(r[8..], "mistral")
    ensures !Contains(name, "llama") && !Contains(name, "mistral") ==> r == name
    ensures forall c | c in r :: c in name || IsAsciiLower(c) || c == '-'
  {
    if Contains(name, "llama") then
      var t := AfterLast(name, "llama");
      EndsWithChars(name, t);
      assert ("llama-" + t)[6..] == t;
      "llama-" + t
    else if Contains(name, "mistral") then
      var t := AfterLast(name, "mistral");
      EndsWithChars(name, t);
      assert ("mistral-" + t)[8..] == t;
      "mistral-" + t
    else name
  }

  /**
   * `''.join(c if c.isalnum() or c in ['-', '_'] else '-' for c in name)`:
   * kept characters stay where they are and every other one becomes `-`.
   */
  function MapNameChars(s: string): (r: string)
    ensures |r| == |s|
    ensures forall c | c in r :: IsNameChar(c)
    ensures forall i | 0 <= i < |s| :: IsNameChar(s[i]) ==> r[i] == s[i]
    ensures forall i | 0 <= i < |s| :: r[i] == s[i] || r[i] == '-'
  {
    seq(|s|, i requires 0 <= i < |s| => if IsNameChar(s[i]) then s[i] else '-')
  }

  /** A string of kept characters is mapped to itself. */
  lemma MapNameCharsKeeps(s: string)
    requires forall c | c in s :: IsNameChar(c)
    ensures MapNameChars(s) == s
  {
    assert forall i | 0 <= i < |s| :: s[i] in s;
  }

  /** The last two cleanup steps: map the characters, then `strip('-_')`. */
  function Sanitize(s: string): (r: string)
    ensures IsCleanName(r)
    ensures |r| <= |s|
    ensures forall c | c in r :: c in s || c == '-'
  {
    var m := MapNameChars(s);
    assert forall c | c in m :: c in s || c == '-' by {
      forall c | c in m ensures c in s || c == '-' {
        var i :| 0 <= i < |m| && m[i] == c;
        assert s[i] in s;
      }
    }
    Strip(m, NameTrim)
  }

  /** A clean name passes through the last two steps unchanged. */
  lemma SanitizeKeepsClean(s: string)
    requires IsCleanName(s)
    ensures Sanitize(s) == s
  {
    MapNameCharsKeeps(s);
    StripUnchanged(s, NameTrim);
  }

  /** Mapping and stripping a second time changes nothing. */
  lemma SanitizeIdempotent(s: string)
    ensures Sanitize(Sanitize(s)) == Sanitize(s)
  {
    SanitizeKeepsClean(Sanitize(s));
  }

  /**
   * The whole derivation. The name is clean, and lower case since only
   * lower-case letters, digits, `-` and `_` survive.
   */
  function DeriveModelName(id: string): (r: string)
    ensures IsCleanName(r)
    ensures forall c | c in r :: !IsAsciiUpper(c)
  {
    var repo := RepoName(id);
    var stem := Stem(repo);
    var dropped := Replace(stem, "-gguf", "");
    ReplaceByEmptyChars(stem, "-gguf");
    Sanitize(dropped)
  }

  /** A clean name holds none of the characters that would break the file name or the YAML line. */
  lemma CleanNameLacks(s: string)
    requires IsCleanName(s)
    ensures '\n' !in s && '.' !in s && ':' !in s && '/' !in s && ' ' !in s
  {
  }

  /** A derived name is already in lower case. */
  lemma DerivedNameLower(id: string)
    ensures Lower(DeriveModelName(id)) == DeriveModelName(id)
  {
    var r := DeriveModelName(id);
    assert forall i | 0 <= i < |r| :: r[i] in r;
  }
}
