/**
 * The handful of Python `str` operations the auto-updater relies on, over
 * `seq<char>`: `in` (substring test), `endswith`, ASCII `lower()`,
 * `split(sep)`, `sep.join(...)`, `replace(old, new)` and `strip(chars)`,
 * and `str(n)` for a natural number.
 */
module Text {

  // ---------------------------------------------------------------------
  // Substrings

  /** `s.startswith(p)` */
  predicate IsPrefix(p: string, s: string) {
    |p| <= |s| && s[..|p|] == p
  }

  /** `s.endswith(p)` */
  predicate EndsWith(s: string, p: string) {
    |p| <= |s| && s[|s| - |p|..] == p
  }

  /** `p in s`, scanning the start positions from left to right. */
  predicate Contains(s: string, p: string)
    decreases |s|
  {
    IsPrefix(p, s) || (|s| > 0 && Contains(s[1..], p))
  }

  /** `p` occurs in `s` starting at index `i`. */
  ghost predicate OccursAt(s: string, p: string, i: int) {
    0 <= i && i + |p| <= |s| && s[i..i + |p|] == p
  }

  /** A prefix agrees with the string at each of its indices. */
  lemma PrefixCharAt(p: string, s: string, k: int)
    ensures IsPrefix(p, s) && 0 <= k < |p| ==> p[k] == s[k]
  {
    if IsPrefix(p, s) && 0 <= k < |p| {
      assert s[..|p|][k] == s[k];
    }
  }

  /** A prefix of `a` is a prefix of every extension of `a`. */
  lemma PrefixOfConcat(p: string, a: string, b: string)
    ensures IsPrefix(p, a) ==> IsPrefix(p, a + b)
  {
    if IsPrefix(p, a) {
      assert (a + b)[..|p|] == a[..|p|];
    }
  }

  /** Being a prefix is transitive. */
  lemma PrefixOfPrefix(p: string, q: string, s: string)
    ensures IsPrefix(p, q) && IsPrefix(q, s) ==> IsPrefix(p, s)
  {
    if IsPrefix(p, q) && IsPrefix(q, s) {
      assert s[..|p|] == s[..|q|][..|p|];
    }
  }

  /** The scan finds `p` exactly when `p` occurs at some index of `s`. */
  lemma {:induction false} ContainsIffOccurs(s: string, p: string)
    ensures Contains(s, p) <==> exists i :: OccursAt(s, p, i)
    decreases |s|
  {
    if Contains(s, p) {
      if IsPrefix(p, s) {
        assert OccursAt(s, p, 0);
      } else {
        ContainsIffOccurs(s[1..], p);
        var i :| OccursAt(s[1..], p, i);
        assert s[1..][i..i + |p|] == s[i + 1..i + 1 + |p|];
        assert OccursAt(s, p, i + 1);
      }
    }
    if exists i :: OccursAt(s, p, i) {
      var i :| OccursAt(s, p, i);
      if i == 0 {
        assert s[..|p|] == s[0..|p|];
      } else {
        assert s[1..][i - 1..i - 1 + |p|] == s[i..i + |p|];
        assert OccursAt(s[1..], p, i - 1);
        ContainsIffOccurs(s[1..], p);
      }
    }
  }

  /** A string in which some character of `p` never appears does not contain `p`. */
  lemma {:induction false} MissingCharNotContained(s: string, p: string, c: char)
    requires c in p && c !in s
    ensures !Contains(s, p)
    decreases |s|
  {
    var k :| 0 <= k < |p| && p[k] == c;
    PrefixCharAt(p, s, k);
    if |s| > 0 {
      MissingCharNotContained(s[1..], p, c);
    }
  }

  /** If `p` is nowhere in `s`, neither is any extension `p + r`. */
  lemma {:induction false} NotContainsExtension(s: string, p: string, r: string)
    requires !Contains(s, p)
    ensures !Contains(s, p + r)
    decreases |s|
  {
    PrefixOfConcat(p, p, r);
    PrefixOfPrefix(p, p + r, s);
    if |s| > 0 {
      NotContainsExtension(s[1..], p, r);
    }
  }

  /** A match cannot start inside `a` when `a` lacks the pattern's first character. */
  lemma {:induction false} ContainsSkip(a: string, t: string, p: string)
    requires |p| > 0 && p[0] !in a
    ensures Contains(a + t, p) ==> Contains(t, p)
    decreases |a|
  {
    if |a| > 0 {
      PrefixCharAt(p, a + t, 0);
      assert (a + t)[1..] == a[1..] + t;
      ContainsSkip(a[1..], t, p);
    } else {
      assert a + t == t;
    }
  }

  /** A final character that is not in the pattern cannot complete a match. */
  lemma {:induction false} ContainsDropLast(s: string, c: char, p: string)
    requires c !in p
    ensures Contains(s + [c], p) ==> Contains(s, p)
    decreases |s|
  {
    var t := s + [c];
    PrefixCharAt(p, t, |s|);
    if |p| <= |s| && IsPrefix(p, t) {
      assert t[..|p|] == s[..|p|];
    }
    if |s| > 0 {
      assert t[1..] == s[1..] + [c];
      ContainsDropLast(s[1..], c, p);
    } else {
      assert t[1..] == "";
    }
  }

  /**
   * `a + [c] + b` does not contain `p` when the only place `p` could start
   * is the lone `c`, and the character after it is not `p`'s second one.
   */
  lemma {:induction false} NotContainsAtLoneStart(a: string, c: char, b: string, p: string)
    requires |p| >= 2 && p[0] !in a && p[0] !in b && |b| > 0 && b[0] != p[1]
    ensures !Contains(a + [c] + b, p)
  {
    var t := [c] + b;
    assert a + [c] + b == a + t;
    ContainsSkip(a, t, p);
    PrefixCharAt(p, t, 1);
    assert t[1..] == b;
    MissingCharNotContained(b, p, p[0]);
  }

  /** A one-character pattern occurs exactly where its character does. */
  lemma {:induction false} ContainsSingleChar(s: string, c: char)
    ensures Contains(s, [c]) <==> c in s
    decreases |s|
  {
    if |s| > 0 {
      ContainsSingleChar(s[1..], c);
      assert s == [s[0]] + s[1..];
    }
  }

  /** Every character of a suffix occurs in the whole string. */
  lemma EndsWithChars(s: string, p: string)
    requires EndsWith(s, p)
    ensures forall c | c in p :: c in s
  {
    forall c | c in p ensures c in s {
      var k :| 0 <= k < |p| && p[k] == c;
      assert s[|s| - |p| + k] == c;
    }
  }

  /** `any(x in s for x in subs)`, evaluated left to right. */
  predicate ContainsAny(s: string, subs: seq<string>)
    decreases |subs|
  {
    |subs| > 0 && (Contains(s, subs[0]) || ContainsAny(s, subs[1..]))
  }

  /** `ContainsAny` holds exactly when some element of `subs` occurs in `s`. */
  lemma {:induction false} ContainsAnyIff(s: string, subs: seq<string>)
    ensures ContainsAny(s, subs) <==> exists k | 0 <= k < |subs| :: Contains(s, subs[k])
    decreases |subs|
  {
    if |subs| > 0 {
      ContainsAnyIff(s, subs[1..]);
      assert forall k | 1 <= k < |subs| :: subs[k] == subs[1..][k - 1];
      if exists k | 0 <= k < |subs| :: Contains(s, subs[k]) {
        var k :| 0 <= k < |subs| && Contains(s, subs[k]);
        assert k == 0 || Contains(s, subs[1..][k - 1]);
      }
    }
  }

  /** As `MissingCharNotContained`, stated as an implication. */
  lemma LacksCharNotContained(s: string, p: string, c: char)
    ensures c in p && c !in s ==> !Contains(s, p)
  {
    if c in p && c !in s {
      MissingCharNotContained(s, p, c);
    }
  }

  /**
   * A line `key + value + "\n"` holds `p` only inside `value`, when `key`
   * lacks `p`'s first character and `p` holds no newline.
   */
  lemma FieldLineAvoids(key: string, value: string, p: string)
    requires |p| > 0 && p[0] !in key && '\n' !in p && !Contains(value, p)
    ensures !Contains(key + value + "\n", p)
  {
    assert key + value + "\n" == key + (value + ['\n']);
    ContainsSkip(key, value + ['\n'], p);
    ContainsDropLast(value, '\n', p);
  }

  // ---------------------------------------------------------------------
  // ASCII character classes and lower-casing

  predicate IsAsciiUpper(c: char) { 'A' <= c <= 'Z' }

  predicate IsAsciiLower(c: char) { 'a' <= c <= 'z' }

  predicate IsAsciiDigit(c: char) { '0' <= c <= '9' }

  /** `c.isalnum()`, restricted to ASCII. */
  predicate IsAsciiAlnum(c: char) { IsAsciiUpper(c) || IsAsciiLower(c) || IsAsciiDigit(c) }

  predicate AllDigits(s: string) {
    forall i | 0 <= i < |s| :: IsAsciiDigit(s[i])
  }

  /** `c.lower()` for ASCII; every other character is left as it is. */
  function LowerChar(c: char): (r: char)
    ensures !IsAsciiUpper(r)
    ensures IsAsciiUpper(c) ==> IsAsciiLower(r) && r as int == c as int + 32
    ensures !IsAsciiUpper(c) ==> r == c
  {
    if IsAsciiUpper(c) then (c as int - 'A' as int + 'a' as int) as char else c
  }

  /** `s.lower()` for ASCII. */
  function Lower(s: string): (r: string)
    ensures |r| == |s|
    ensures forall i | 0 <= i < |s| :: r[i] == LowerChar(s[i])
  {
    seq(|s|, i requires 0 <= i < |s| => LowerChar(s[i]))
  }

  /** Lower-casing a string lower-cases each of its suffixes. */
  lemma LowerEndsWith(s: string, p: string)
    requires EndsWith(s, p)
    ensures EndsWith(Lower(s), Lower(p))
  {
    assert Lower(s)[|s| - |p|..] == Lower(p);
  }

  /** Lower-casing is idempotent and leaves no upper-case letter behind. */
  lemma LowerIdempotent(s: string)
    ensures Lower(Lower(s)) == Lower(s)
    ensures forall i | 0 <= i < |s| :: !IsAsciiUpper(Lower(s)[i])
  {
  }

  /** A lower-cased string contains `c` only where the original held `c` or its upper case. */
  lemma LowerCharIn(s: string, c: char)
    requires IsAsciiLower(c) && c in Lower(s)
    ensures c in s || (c as int - 32) as char in s
  {
    var i :| 0 <= i < |s| && Lower(s)[i] == c;
    assert s[i] == c || s[i] == (c as int - 32) as char;
  }

  // ---------------------------------------------------------------------
  // split and join

  /**
   * `s.split(sep)` for a non-empty `sep` (Python raises ValueError on an
   * empty one): pieces between the occurrences of `sep` found left to right.
   */
  function Split(s: string, sep: string): (r: seq<string>)
    requires |sep| > 0
    ensures |r| > 0
    ensures IsPrefix(r[0], s)
    decreases |s|
  {
    if |s| == 0 then [""]
    else if IsPrefix(sep, s) then [""] + Split(s[|sep|..], sep)
    else
      var t := Split(s[1..], sep);
      [[s[0]] + t[0]] + t[1..]
  }

  /** `sep.join(xs)` */
  function Join(xs: seq<string>, sep: string): string
    decreases |xs|
  {
    if |xs| == 0 then ""
    else if |xs| == 1 then xs[0]
    else xs[0] + sep + Join(xs[1..], sep)
  }

  /** `xs[-1]` */
  function Last<T>(xs: seq<T>): T
    requires |xs| > 0
  {
    xs[|xs| - 1]
  }

  /** Prepending a character to the first piece prepends it to the joined string. */
  lemma JoinConsFirst(c: char, xs: seq<string>, sep: string)
    requires |xs| > 0
    ensures Join([[c] + xs[0]] + xs[1..], sep) == [c] + Join(xs, sep)
  {
    var ys := [[c] + xs[0]] + xs[1..];
    if |xs| > 1 {
      assert ys[1..] == xs[1..];
    }
  }

  /** An empty first piece contributes only the separator. */
  lemma JoinConsEmpty(xs: seq<string>, sep: string)
    requires |xs| > 0
    ensures Join([""] + xs, sep) == sep + Join(xs, sep)
  {
    assert ([""] + xs)[1..] == xs;
  }

  /** Every character of a piece occurs in the joined string. */
  lemma {:induction false} JoinPieceChars(xs: seq<string>, sep: string, k: int, c: char)
    requires 0 <= k < |xs| && c in xs[k]
    ensures c in Join(xs, sep)
    decreases |xs|
  {
    if |xs| > 1 && k > 0 {
      JoinPieceChars(xs[1..], sep, k - 1, c);
    }
  }

  /** Round trip: joining the pieces with the separator gives back the string. */
  lemma {:induction false} JoinSplit(s: string, sep: string)
    requires |sep| > 0
    ensures Join(Split(s, sep), sep) == s
    decreases |s|
  {
    if |s| == 0 {
    } else if IsPrefix(sep, s) {
      var rest := Split(s[|sep|..], sep);
      JoinSplit(s[|sep|..], sep);
      JoinConsEmpty(rest, sep);
      assert s == sep + s[|sep|..];
    } else {
      var t := Split(s[1..], sep);
      JoinSplit(s[1..], sep);
      JoinConsFirst(s[0], t, sep);
      assert s == [s[0]] + s[1..];
    }
  }

  /** No piece of a split contains the separator. */
  lemma {:induction false} SplitPiecesAvoidSep(s: string, sep: string)
    requires |sep| > 0
    ensures forall k | 0 <= k < |Split(s, sep)| :: !Contains(Split(s, sep)[k], sep)
    decreases |s|
  {
    var r := Split(s, sep);
    if |s| == 0 {
      assert !IsPrefix(sep, "");
    } else if IsPrefix(sep, s) {
      var rest := Split(s[|sep|..], sep);
      SplitPiecesAvoidSep(s[|sep|..], sep);
      assert !IsPrefix(sep, "");
      forall k | 1 <= k < |r| ensures !Contains(r[k], sep) {
        assert r[k] == rest[k - 1];
      }
    } else {
      var t := Split(s[1..], sep);
      SplitPiecesAvoidSep(s[1..], sep);
      var first := [s[0]] + t[0];
      // t[0] is a prefix of s[1..], so first is a prefix of s, and so would sep be
      assert s[..|first|] == first;
      PrefixOfPrefix(sep, first, s);
      assert first[1..] == t[0];
      assert !Contains(first, sep);
      forall k | 1 <= k < |r| ensures !Contains(r[k], sep) {
        assert r[k] == t[k];
      }
    }
  }

  /** The joined string ends with its last piece. */
  lemma {:induction false} JoinEndsWithLast(xs: seq<string>, sep: string)
    requires |xs| > 0
    ensures EndsWith(Join(xs, sep), Last(xs))
    decreases |xs|
  {
    if |xs| > 1 {
      JoinEndsWithLast(xs[1..], sep);
      assert Last(xs[1..]) == Last(xs);
      var j := Join(xs[1..], sep);
      var whole := xs[0] + sep + j;
      assert whole[|whole| - |Last(xs)|..] == j[|j| - |Last(xs)|..];
    }
  }

  /** `s.split(sep)[-1]`: the text after the last occurrence of `sep` (all of `s` when there is none). */
  function AfterLast(s: string, sep: string): (r: string)
    requires |sep| > 0
    ensures EndsWith(s, r)
    ensures !Contains(r, sep)
    ensures !Contains(s, sep) ==> r == s
    ensures Contains(s, sep) ==> EndsWith(s, sep + r)
  {
    var pieces := Split(s, sep);
    JoinSplit(s, sep);
    JoinEndsWithLast(pieces, sep);
    SplitPiecesAvoidSep(s, sep);
    if !Contains(s, sep) then
      SplitWithoutSep(s, sep);
      Last(pieces)
    else
      SplitLastAfterSep(s, sep);
      Last(pieces)
  }

  /** A suffix of a suffix is a suffix. */
  lemma EndsWithOfDrop(s: string, k: int, p: string)
    requires 0 <= k <= |s| && EndsWith(s[k..], p)
    ensures EndsWith(s, p)
  {
    assert s[|s| - |p|..] == s[k..][|s[k..]| - |p|..];
  }

  /** When the separator occurs, the last piece of the split follows its last occurrence. */
  lemma {:induction false} SplitLastAfterSep(s: string, sep: string)
    requires |sep| > 0 && Contains(s, sep)
    ensures EndsWith(s, sep + Last(Split(s, sep)))
    decreases |s|
  {
    if IsPrefix(sep, s) {
      if Contains(s[|sep|..], sep) {
        SplitLastAfterSep(s[|sep|..], sep);
      }
      SplitLastAtMatch(s, sep);
    } else {
      SplitLastAfterSep(s[1..], sep);
      SplitLastAtOther(s, sep);
    }
  }

  /** The step of `SplitLastAfterSep` where the string starts with the separator. */
  lemma SplitLastAtMatch(s: string, sep: string)
    requires |sep| > 0 && IsPrefix(sep, s)
    requires Contains(s[|sep|..], sep) ==> EndsWith(s[|sep|..], sep + Last(Split(s[|sep|..], sep)))
    ensures EndsWith(s, sep + Last(Split(s, sep)))
  {
    var t := s[|sep|..];
    SplitAtMatch(s, t, sep);
    var last := Last(Split(t, sep));
    assert Last(Split(s, sep)) == last;
    if Contains(t, sep) {
      EndsWithOfDrop(s, |sep|, sep + last);
    } else {
      SplitWithoutSep(t, sep);
      SepThenRest(s, sep);
    }
  }

  lemma SepThenRest(s: string, sep: string)
    requires IsPrefix(sep, s)
    ensures EndsWith(s, sep + s[|sep|..])
  {
    assert s == sep + s[|sep|..];
  }

  /** The step of `SplitLastAfterSep` where the separator occurs later in the string. */
  lemma SplitLastAtOther(s: string, sep: string)
    requires |sep| > 0 && |s| > 0 && !IsPrefix(sep, s) && Contains(s[1..], sep)
    requires EndsWith(s[1..], sep + Last(Split(s[1..], sep)))
    ensures EndsWith(s, sep + Last(Split(s, sep)))
  {
    var t := Split(s[1..], sep);
    JoinSplit(s[1..], sep);
    SplitPiecesAvoidSep(s[1..], sep);
    assert |t| > 1;
    assert Last(Split(s, sep)) == Last(t);
    EndsWithOfDrop(s, 1, sep + Last(t));
  }

  /** Without an occurrence of the separator, split returns the string as its only piece. */
  lemma {:induction false} SplitWithoutSep(s: string, sep: string)
    requires |sep| > 0 && !Contains(s, sep)
    ensures Split(s, sep) == [s]
    decreases |s|
  {
    if |s| > 0 {
      SplitWithoutSep(s[1..], sep);
      assert [s[0]] + s[1..] == s;
    }
  }

  /** `"".join(l + "\n" for l in ls)`: the lines of a text file, each ended by a newline. */
  function Unlines(ls: seq<string>): (r: string)
    ensures |ls| > 0 ==> |r| > 0 && r[|r| - 1] == '\n'
    decreases |ls|
  {
    if |ls| == 0 then "" else ls[0] + "\n" + Unlines(ls[1..])
  }

  lemma {:induction false} UnlinesAppend(a: seq<string>, b: seq<string>)
    ensures Unlines(a + b) == Unlines(a) + Unlines(b)
    decreases |a|
  {
    if |a| == 0 {
      assert a + b == b;
    } else {
      assert (a + b)[1..] == a[1..] + b;
      UnlinesAppend(a[1..], b);
    }
  }

  /** Splitting at the first separator: `(a + sep + b).split(sep) == [a] + b.split(sep)` when `a` lacks it. */
  lemma {:induction false} SplitAtFirst(a: string, c: char, b: string)
    requires c !in a
    ensures Split(a + [c] + b, [c]) == [a] + Split(b, [c])
    decreases |a|
  {
    var s := a + [c] + b;
    if |a| == 0 {
      assert s == [c] + b && s[1..] == b;
    } else {
      assert s[0] == a[0] && s[1..] == a[1..] + [c] + b;
      SplitAtFirst(a[1..], c, b);
      assert [a[0]] + a[1..] == a;
    }
  }

  /**
   * Round trip: splitting a file at its newlines gives back its lines, plus
   * the empty piece after the final newline.
   */
  lemma {:induction false} SplitUnlines(ls: seq<string>)
    requires forall l | l in ls :: '\n' !in l
    ensures Split(Unlines(ls), "\n") == ls + [""]
    decreases |ls|
  {
    if |ls| > 0 {
      SplitUnlines(ls[1..]);
      SplitAtFirst(ls[0], '\n', Unlines(ls[1..]));
      assert [ls[0]] + (ls[1..] + [""]) == ls + [""];
    }
  }

  // ---------------------------------------------------------------------
  // replace

  /** `"".join(rep + c for c in s) + rep`: Python's `s.replace("", rep)`. */
  function InsertAround(s: string, rep: string): string
    decreases |s|
  {
    if |s| == 0 then rep else rep + [s[0]] + InsertAround(s[1..], rep)
  }

  /**
   * `s.replace(pat, rep)`: every occurrence of `pat`, found left to right
   * without overlap, is replaced by `rep`.
   */
  function Replace(s: string, pat: string, rep: string): string
    decreases |s|
  {
    if |pat| == 0 then InsertAround(s, rep)
    else if |s| == 0 then ""
    else if IsPrefix(pat, s) then rep + Replace(s[|pat|..], pat, rep)
    else [s[0]] + Replace(s[1..], pat, rep)
  }

  /** Python's identity `s.replace(pat, rep) == rep.join(s.split(pat))`. */
  lemma {:induction false} ReplaceIsJoinOfSplit(s: string, pat: string, rep: string)
    requires |pat| > 0
    ensures Replace(s, pat, rep) == Join(Split(s, pat), rep)
    decreases |s|
  {
    if |s| == 0 {
    } else if IsPrefix(pat, s) {
      ReplaceIsJoinOfSplit(s[|pat|..], pat, rep);
      ReplaceIsJoinAtMatch(s, s[|pat|..], pat, rep);
    } else {
      ReplaceIsJoinOfSplit(s[1..], pat, rep);
      ReplaceIsJoinAtOther(s, s[1..], pat, rep);
    }
  }

  /** The step of `ReplaceIsJoinOfSplit` at an occurrence. */
  lemma ReplaceIsJoinAtMatch(s: string, t: string, pat: string, rep: string)
    requires |pat| > 0 && IsPrefix(pat, s) && s[|pat|..] == t
    requires Replace(t, pat, rep) == Join(Split(t, pat), rep)
    ensures Replace(s, pat, rep) == Join(Split(s, pat), rep)
  {
    SplitAtMatch(s, t, pat);
    JoinConsEmpty(Split(t, pat), rep);
    ReplaceAtMatch(s, t, pat, rep);
  }

  /** The step of `ReplaceIsJoinOfSplit` that copies the first character. */
  lemma ReplaceIsJoinAtOther(s: string, t: string, pat: string, rep: string)
    requires |pat| > 0 && |s| > 0 && !IsPrefix(pat, s) && s[1..] == t
    requires Replace(t, pat, rep) == Join(Split(t, pat), rep)
    ensures Replace(s, pat, rep) == Join(Split(s, pat), rep)
  {
    SplitAtOther(s, t, pat);
    JoinConsFirst(s[0], Split(t, pat), rep);
    ReplaceAtOther(s, t, pat, rep);
  }

  lemma SplitAtMatch(s: string, t: string, sep: string)
    requires |sep| > 0 && IsPrefix(sep, s) && s[|sep|..] == t
    ensures Split(s, sep) == [""] + Split(t, sep)
  {
  }

  lemma SplitAtOther(s: string, t: string, sep: string)
    requires |sep| > 0 && |s| > 0 && !IsPrefix(sep, s) && s[1..] == t
    ensures Split(s, sep) == [[s[0]] + Split(t, sep)[0]] + Split(t, sep)[1..]
  {
  }

  /** Replacing a pattern that does not occur changes nothing. */
  lemma {:induction false} ReplaceAbsent(s: string, pat: string, rep: string)
    requires |pat| > 0 && !Contains(s, pat)
    ensures Replace(s, pat, rep) == s
    decreases |s|
  {
    if |s| > 0 {
      ReplaceAbsent(s[1..], pat, rep);
      assert [s[0]] + s[1..] == s;
    }
  }

  /** The scan at an occurrence: the replacement, then the scan of what follows it. */
  lemma ReplaceAtMatch(s: string, t: string, pat: string, rep: string)
    requires |pat| > 0 && IsPrefix(pat, s) && s[|pat|..] == t
    ensures Replace(s, pat, rep) == rep + Replace(t, pat, rep)
  {
  }

  /** The scan at a non-occurrence: the first character, then the scan of the rest. */
  lemma ReplaceAtOther(s: string, t: string, pat: string, rep: string)
    requires |pat| > 0 && |s| > 0 && !IsPrefix(pat, s) && s[1..] == t
    ensures Replace(s, pat, rep) == [s[0]] + Replace(t, pat, rep)
  {
  }

  // The rearrangements below mention no `Replace`, so that the steps of the
  // proofs about it are checked apart from its definition.

  /** A character missing from a string is missing from its tail. */
  lemma TailLacks(a: string, c: char)
    requires |a| > 0 && c !in a
    ensures c !in a[1..]
  {
    assert forall d | d in a[1..] :: d in a;
  }

  lemma GlueCons(x: string, y: string, a: string, r: string)
    requires |a| > 0 && x == [a[0]] + y && y == a[1..] + r
    ensures x == a + r
  {
    assert [a[0]] + a[1..] == a;
  }

  lemma GlueHalves(x: string, y: string, z: string, w: string, r: string, c: string)
    requires x == c + y && z == c + w && y == w + r
    ensures x == z + r
  {
  }

  /** Dropping the first character of `a + b` drops it from `a`. */
  lemma DropFirstOfConcat(a: string, b: string)
    requires |a| > 0
    ensures (a + b)[0] == a[0] && (a + b)[1..] == a[1..] + b
    ensures |a| > 1 ==> a[1..][|a| - 2] == a[|a| - 1]
    ensures |a| == 1 ==> a[1..] + b == b
  {
    assert (a + b)[1..] == a[1..] + b;
  }

  /**
   * A pattern at the start of `a + b` that lacks the last character of `a`
   * lies inside `a`, and what follows it is the rest of `a`, then `b`.
   */
  lemma MatchInsideLeft(a: string, b: string, pat: string)
    requires |a| > 0 && a[|a| - 1] !in pat && IsPrefix(pat, a + b)
    ensures |pat| < |a| && IsPrefix(pat, a)
    ensures (a + b)[|pat|..] == a[|pat|..] + b
    ensures a[|pat|..][|a| - |pat| - 1] == a[|a| - 1]
  {
    var s := a + b;
    assert s[|a| - 1] == a[|a| - 1];
    PrefixCharAt(pat, s, |a| - 1);
    assert a[..|pat|] == s[..|pat|];
    assert s[|pat|..] == a[|pat|..] + b;
  }

  /** No occurrence can start inside `a` when `a` lacks the pattern's first character. */
  lemma {:induction false} ReplaceSkip(a: string, b: string, pat: string, rep: string)
    requires |pat| > 0 && pat[0] !in a
    ensures Replace(a + b, pat, rep) == a + Replace(b, pat, rep)
    decreases |a|
  {
    if |a| == 0 {
      assert a + b == b;
    } else {
      TailLacks(a, pat[0]);
      ReplaceSkip(a[1..], b, pat, rep);
      ReplaceSkipStep(a, b, pat, rep);
    }
  }

  /** One step of `ReplaceSkip`: a first character that cannot start the pattern is copied. */
  lemma ReplaceSkipStep(a: string, b: string, pat: string, rep: string)
    requires |pat| > 0 && |a| > 0 && a[0] != pat[0]
    requires Replace(a[1..] + b, pat, rep) == a[1..] + Replace(b, pat, rep)
    ensures Replace(a + b, pat, rep) == a + Replace(b, pat, rep)
  {
    var s := a + b;
    PrefixCharAt(pat, s, 0);
    DropFirstOfConcat(a, b);
    ReplaceAtOther(s, a[1..] + b, pat, rep);
    GlueCons(Replace(s, pat, rep), Replace(a[1..] + b, pat, rep), a, Replace(b, pat, rep));
  }

  /**
   * When `a` ends with a character that is not in the pattern, no occurrence
   * straddles the boundary, so the two halves are rewritten separately.
   */
  lemma {:induction false} ReplaceConcat(a: string, b: string, pat: string, rep: string)
    requires |pat| > 0 && |a| > 0 && a[|a| - 1] !in pat
    ensures Replace(a + b, pat, rep) == Replace(a, pat, rep) + Replace(b, pat, rep)
    decreases |a|
  {
    if IsPrefix(pat, a + b) {
      MatchInsideLeft(a, b, pat);
      var a' := a[|pat|..];
      ReplaceConcat(a', b, pat, rep);
      ReplaceConcatAtMatch(a, b, pat, rep);
    } else {
      DropFirstOfConcat(a, b);
      var a' := a[1..];
      if |a| > 1 {
        ReplaceConcat(a', b, pat, rep);
      } else {
        ReplaceEmptyLeft(b, pat, rep);
      }
      ReplaceConcatAtOther(a, b, pat, rep);
    }
  }

  lemma ReplaceEmptyLeft(b: string, pat: string, rep: string)
    requires |pat| > 0
    ensures Replace("" + b, pat, rep) == Replace("", pat, rep) + Replace(b, pat, rep)
  {
    assert "" + b == b;
  }

  /** The step of `ReplaceConcat` at an occurrence, given the claim for the rest of `a`. */
  lemma ReplaceConcatAtMatch(a: string, b: string, pat: string, rep: string)
    requires |pat| > 0 && |a| > 0 && a[|a| - 1] !in pat && IsPrefix(pat, a + b)
    requires |pat| <= |a|
    requires Replace(a[|pat|..] + b, pat, rep) == Replace(a[|pat|..], pat, rep) + Replace(b, pat, rep)
    ensures Replace(a + b, pat, rep) == Replace(a, pat, rep) + Replace(b, pat, rep)
  {
    MatchInsideLeft(a, b, pat);
    var a' := a[|pat|..];
    ReplaceAtMatch(a + b, a' + b, pat, rep);
    ReplaceAtMatch(a, a', pat, rep);
    GlueHalves(Replace(a + b, pat, rep), Replace(a' + b, pat, rep), Replace(a, pat, rep),
      Replace(a', pat, rep), Replace(b, pat, rep), rep);
  }

  /** The step of `ReplaceConcat` that copies the first character, given the claim for the rest of `a`. */
  lemma ReplaceConcatAtOther(a: string, b: string, pat: string, rep: string)
    requires |pat| > 0 && |a| > 0 && !IsPrefix(pat, a + b)
    requires Replace(a[1..] + b, pat, rep) == Replace(a[1..], pat, rep) + Replace(b, pat, rep)
    ensures Replace(a + b, pat, rep) == Replace(a, pat, rep) + Replace(b, pat, rep)
  {
    PrefixOfConcat(pat, a, b);
    DropFirstOfConcat(a, b);
    var a' := a[1..];
    ReplaceAtOther(a + b, a' + b, pat, rep);
    ReplaceAtOther(a, a', pat, rep);
    GlueHalves(Replace(a + b, pat, rep), Replace(a' + b, pat, rep), Replace(a, pat, rep),
      Replace(a', pat, rep), Replace(b, pat, rep), [a[0]]);
  }

  /** A leading occurrence is replaced and the scan resumes after it. */
  lemma ReplaceHere(pat: string, b: string, rep: string)
    requires |pat| > 0
    ensures Replace(pat + b, pat, rep) == rep + Replace(b, pat, rep)
  {
    var s := pat + b;
    assert s[..|pat|] == pat;
    assert s[|pat|..] == b;
  }

  /** A line `key + pat + "\n"` whose key cannot start a match has exactly one occurrence, at the end. */
  lemma FieldLineReplace(key: string, pat: string, rep: string)
    requires |pat| > 0 && pat[0] !in key && '\n' !in pat
    ensures Replace(key + pat + "\n", pat, rep) == key + rep + "\n"
  {
    assert key + pat + "\n" == key + (pat + "\n");
    ReplaceSkip(key, pat + "\n", pat, rep);
    ReplaceHere(pat, "\n", rep);
    LacksCharNotContained("\n", pat, pat[0]);
    ReplaceAbsent("\n", pat, rep);
  }

  /**
   * A first character that does not begin an occurrence (the second
   * character already differs) is copied and the scan moves on.
   */
  lemma ReplaceMismatch(c: char, b: string, pat: string, rep: string)
    requires |pat| >= 2 && |b| > 0 && b[0] != pat[1]
    ensures Replace([c] + b, pat, rep) == [c] + Replace(b, pat, rep)
  {
    var s := [c] + b;
    assert s[1] == b[0];
    assert s[1..] == b;
  }

  /** Replacing in a file whose lines all lack the pattern (and no match spans a newline) changes nothing. */
  lemma {:induction false} ReplaceUnlinesUnchanged(ls: seq<string>, pat: string, rep: string)
    requires |pat| > 0 && '\n' !in pat
    requires forall l | l in ls :: !Contains(l + "\n", pat)
    ensures Replace(Unlines(ls), pat, rep) == Unlines(ls)
    decreases |ls|
  {
    if |ls| > 0 {
      var first := ls[0] + "\n";
      assert Unlines(ls) == first + Unlines(ls[1..]);
      ReplaceConcat(first, Unlines(ls[1..]), pat, rep);
      ReplaceAbsent(first, pat, rep);
      ReplaceUnlinesUnchanged(ls[1..], pat, rep);
    }
  }

  /** Replacing in a file is replacing in its first line and then in the rest. */
  lemma ReplaceUnlinesCons(l: string, ls: seq<string>, pat: string, rep: string)
    requires |pat| > 0 && '\n' !in pat
    ensures Replace(Unlines([l] + ls), pat, rep) == Replace(l + "\n", pat, rep) + Replace(Unlines(ls), pat, rep)
  {
    assert ([l] + ls)[0] == l && ([l] + ls)[1..] == ls;
    ReplaceConcat(l + "\n", Unlines(ls), pat, rep);
  }

  /** Replacing in a file is replacing in each of two consecutive blocks of lines. */
  lemma ReplaceUnlinesAppend(a: seq<string>, b: seq<string>, pat: string, rep: string)
    requires |pat| > 0 && '\n' !in pat
    ensures Replace(Unlines(a + b), pat, rep) == Replace(Unlines(a), pat, rep) + Replace(Unlines(b), pat, rep)
  {
    UnlinesAppend(a, b);
    if |a| > 0 {
      ReplaceConcat(Unlines(a), Unlines(b), pat, rep);
    } else {
      assert a + b == b;
      assert Replace(Unlines(a), pat, rep) == "";
    }
  }

  /** Deleting every occurrence of a pattern introduces no new character. */
  lemma {:induction false} ReplaceByEmptyChars(s: string, pat: string)
    requires |pat| > 0
    ensures forall c | c in Replace(s, pat, "") :: c in s
    decreases |s|
  {
    if |s| > 0 {
      if IsPrefix(pat, s) {
        ReplaceByEmptyChars(s[|pat|..], pat);
        assert forall c | c in s[|pat|..] :: c in s;
      } else {
        ReplaceByEmptyChars(s[1..], pat);
        assert forall c | c in s[1..] :: c in s;
      }
    }
  }

  // ---------------------------------------------------------------------
  // strip

  /** `s.lstrip(chars)` */
  function StripLeft(s: string, chars: set<char>): (r: string)
    ensures |r| <= |s| && r == s[|s| - |r|..]
    ensures forall k | 0 <= k < |s| - |r| :: s[k] in chars
    ensures |r| == 0 || r[0] !in chars
    decreases |s|
  {
    if |s| > 0 && s[0] in chars then StripLeft(s[1..], chars) else s
  }

  /** `s.rstrip(chars)` */
  function StripRight(s: string, chars: set<char>): (r: string)
    ensures |r| <= |s| && r == s[..|r|]
    ensures forall k | |r| <= k < |s| :: s[k] in chars
    ensures |r| == 0 || r[|r| - 1] !in chars
    decreases |s|
  {
    if |s| > 0 && s[|s| - 1] in chars then StripRight(s[..|s| - 1], chars) else s
  }

  /** `r` is `s` with a run of characters from `chars` taken off each end. */
  ghost predicate TrimmedSlice(s: string, r: string, chars: set<char>) {
    exists i, j | 0 <= i <= j <= |s| ::
      && r == s[i..j]
      && (forall k | 0 <= k < i :: s[k] in chars)
      && (forall k | j <= k < |s| :: s[k] in chars)
  }

  /** `s.strip(chars)`: the longest run between a stripped prefix and a stripped suffix. */
  function Strip(s: string, chars: set<char>): (r: string)
    ensures |r| == 0 || (r[0] !in chars && r[|r| - 1] !in chars)
    ensures TrimmedSlice(s, r, chars)
    ensures |r| <= |s|
    ensures forall c | c in r :: c in s
  {
    var left := StripLeft(s, chars);
    var r := StripRight(left, chars);
    StripIsSlice(s, chars, left, r);
    r
  }

  /**
   * A stripped suffix of a stripped prefix is a slice of the string, outside
   * which every character is stripped.
   */
  lemma StripIsSlice(s: string, chars: set<char>, left: string, r: string)
    requires |left| <= |s| && left == s[|s| - |left|..]
    requires forall k | 0 <= k < |s| - |left| :: s[k] in chars
    requires |left| == 0 || left[0] !in chars
    requires |r| <= |left| && r == left[..|r|]
    requires forall k | |r| <= k < |left| :: left[k] in chars
    requires |r| == 0 || r[|r| - 1] !in chars
    ensures |r| == 0 || (r[0] !in chars && r[|r| - 1] !in chars)
    ensures |r| <= |s|
    ensures forall c | c in r :: c in s
    ensures TrimmedSlice(s, r, chars)
  {
    var i := |s| - |left|;
    var j := i + |r|;
    assert r == s[i..j];
    forall k | j <= k < |s| ensures s[k] in chars {
      assert s[k] == left[k - i];
    }
    assert r == s[i..j] && (forall k | 0 <= k < i :: s[k] in chars) && (forall k | j <= k < |s| :: s[k] in chars);
    assert |r| > 0 ==> r[0] == left[0];
    assert forall c | c in r :: c in left;
  }

  /** Stripping a string that neither starts nor ends with a stripped character changes nothing. */
  lemma StripUnchanged(s: string, chars: set<char>)
    requires |s| == 0 || (s[0] !in chars && s[|s| - 1] !in chars)
    ensures Strip(s, chars) == s
  {
  }

  // ---------------------------------------------------------------------
  // Decimal numerals

  function DigitChar(d: nat): (c: char)
    requires d < 10
    ensures IsAsciiDigit(c)
  {
    (d + '0' as int) as char
  }

  function DigitValue(c: char): nat
    requires IsAsciiDigit(c)
  {
    c as int - '0' as int
  }

  /** `str(n)` */
  function NatToDecimal(n: nat): (r: string)
    ensures |r| > 0 && AllDigits(r)
    ensures r[0] == '0' <==> n == 0
    decreases n
  {
    if n < 10 then [DigitChar(n)] else NatToDecimal(n / 10) + [DigitChar(n % 10)]
  }

  /** `int(s)` for a string of decimal digits. */
  function DecimalValue(s: string): nat
    requires AllDigits(s)
    decreases |s|
  {
    if |s| == 0 then 0 else DecimalValue(s[..|s| - 1]) * 10 + DigitValue(s[|s| - 1])
  }

  /** Round trip: reading back `str(n)` gives `n`. */
  lemma {:induction false} DecimalRoundTrip(n: nat)
    ensures DecimalValue(NatToDecimal(n)) == n
    decreases n
  {
    if n >= 10 {
      DecimalRoundTrip(n / 10);
      var s := NatToDecimal(n);
      assert s[..|s| - 1] == NatToDecimal(n / 10);
    }
  }
}
