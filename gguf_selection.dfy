/**
 * Choice of the one weight file to download from a model repository
 * (`find_best_gguf_file`): a `Q4_K_M` file if there is one, otherwise a file
 * with the first fallback quantisation that any `.gguf` file carries,
 * otherwise any `.gguf` file, always the least one by name.
 */
module GgufSelection {
  import opened Wrappers
  import opened Text
  import opened LexOrder
  import opened Seqs

  /** Suffix of a weight file. */
  const GgufSuffix: string := ".gguf"

  /** The preferred quantisation, best balance for CPU inference. */
  const Quantization: string := "Q4_K_M"

  /** Quantisations tried, in this order, when no `Q4_K_M` file exists. */
  const FallbackPatterns: seq<string> := ["Q4_0", "Q4_K", "Q3_K", "Q5_K", "Q2_K", "Q8_0"]

  predicate IsGguf(f: string) {
    EndsWith(f, GgufSuffix)
  }

  predicate IsPreferredGguf(f: string) {
    IsGguf(f) && Contains(f, Quantization)
  }

  /** Some file of `files` contains `pat`. */
  predicate HasMatch(files: seq<string>, pat: string) {
    exists f | f in files :: Contains(f, pat)
  }

  /** `patterns[k]` is the first pattern with a match among `files`. */
  predicate IsFirstHit(files: seq<string>, patterns: seq<string>, k: int) {
    && 0 <= k < |patterns|
    && HasMatch(files, patterns[k])
    && forall j | 0 <= j < k :: !HasMatch(files, patterns[j])
  }

  /** `s` is the least file of `files` that contains `pat`. */
  predicate IsLeastMatch(s: string, files: seq<string>, pat: string) {
    && s in files
    && Contains(s, pat)
    && forall g | g in files && Contains(g, pat) :: LexLe(s, g)
  }

  /** `[f for f in files if pat in f]` */
  function Matches(files: seq<string>, pat: string): (r: seq<string>)
    ensures forall f | f in r :: f in files && Contains(f, pat)
    ensures forall f | f in files && Contains(f, pat) :: f in r
    decreases |files|
  {
    if |files| == 0 then []
    else (if Contains(files[0], pat) then [files[0]] else []) + Matches(files[1..], pat)
  }

  /** `[f for f in files if f.endswith(".gguf")]` */
  function GgufFiles(files: seq<string>): (r: seq<string>)
    ensures forall f | f in r :: f in files && IsGguf(f)
    ensures forall f | f in files && IsGguf(f) :: f in r
  {
    Filter(files, IsGguf)
  }

  /**
   * The loop over the fallback patterns: the least file matching the first
   * pattern that matches anything, or `None` when no pattern matches.
   */
  function FirstPatternMatch(files: seq<string>, patterns: seq<string>): (r: Option<string>)
    ensures r.None? <==> forall k | 0 <= k < |patterns| :: !HasMatch(files, patterns[k])
    ensures forall k | IsFirstHit(files, patterns, k) :: r.Some? && IsLeastMatch(r.value, files, patterns[k])
    decreases |patterns|
  {
    if |patterns| == 0 then None
    else if |Matches(files, patterns[0])| > 0 then
      FirstHitAtHead(files, patterns);
      Some(Min(Matches(files, patterns[0])))
    else
      FirstHitInTail(files, patterns);
      FirstPatternMatch(files, patterns[1..])
  }

  /** When the first pattern matches, it is the first hit and the least match is its least file. */
  lemma FirstHitAtHead(files: seq<string>, patterns: seq<string>)
    requires |patterns| > 0 && |Matches(files, patterns[0])| > 0
    ensures HasMatch(files, patterns[0])
    ensures forall k | IsFirstHit(files, patterns, k) :: k == 0
    ensures IsLeastMatch(Min(Matches(files, patterns[0])), files, patterns[0])
  {
    var m := Matches(files, patterns[0]);
    assert m[0] in m;
  }

  /** When the first pattern matches nothing, the hits are those of the remaining patterns. */
  lemma FirstHitInTail(files: seq<string>, patterns: seq<string>)
    requires |patterns| > 0 && |Matches(files, patterns[0])| == 0
    ensures (forall k | 0 <= k < |patterns| :: !HasMatch(files, patterns[k])) <==>
      (forall k | 0 <= k < |patterns[1..]| :: !HasMatch(files, patterns[1..][k]))
    ensures forall k | IsFirstHit(files, patterns, k) :: k >= 1 && IsFirstHit(files, patterns[1..], k - 1)
  {
    assert !HasMatch(files, patterns[0]);
    assert forall k | 1 <= k < |patterns| :: patterns[k] == patterns[1..][k - 1];
  }

  /**
   * `find_best_gguf_file` once the repository listing is in hand: the
   * result is `None` exactly when no file ends with `.gguf`; otherwise it
   * is one of the `.gguf` files, chosen by the fixed preference.
   */
  function SelectGgufFile(files: seq<string>): (r: Option<string>)
    ensures r.None? <==> forall f | f in files :: !IsGguf(f)
    ensures r.Some? ==> r.value in files && IsGguf(r.value)
  {
    var preferred := Filter(files, IsPreferredGguf);
    if |preferred| > 0 then Some(Min(preferred))
    else
      var gguf := GgufFiles(files);
      if |gguf| > 0 then
        match FirstPatternMatch(gguf, FallbackPatterns)
        case Some(f) =>
          assert f in gguf by {
            assert HasMatch(gguf, FallbackPatterns[FirstHitOf(gguf, FallbackPatterns)]);
          }
          Some(f)
        case None => Some(Min(gguf))
      else None
  }

  /** Index of the first pattern that has a match, given that one does. */
  ghost function FirstHitOf(files: seq<string>, patterns: seq<string>): (k: int)
    requires exists k | 0 <= k < |patterns| :: HasMatch(files, patterns[k])
    ensures IsFirstHit(files, patterns, k)
    decreases |patterns|
  {
    if HasMatch(files, patterns[0]) then 0
    else
      assert forall k | 1 <= k < |patterns| :: patterns[k] == patterns[1..][k - 1];
      assert exists k | 0 <= k < |patterns[1..]| :: HasMatch(files, patterns[1..][k]);
      FirstHitOf(files, patterns[1..]) + 1
  }

  /** Whenever a `Q4_K_M` weight file exists, the choice is the least of those files. */
  lemma PreferredFileWins(files: seq<string>)
    requires exists f | f in files :: IsPreferredGguf(f)
    ensures SelectGgufFile(files).Some?
    ensures IsLeastMatch(SelectGgufFile(files).value, GgufFiles(files), Quantization)
  {
    var f :| f in files && IsPreferredGguf(f);
    var preferred := Filter(files, IsPreferredGguf);
    assert f in preferred;
    var r := Min(preferred);
    assert r in GgufFiles(files);
    forall g | g in GgufFiles(files) && Contains(g, Quantization) ensures LexLe(r, g) {
      assert g in preferred;
    }
  }

  /**
   * Without a `Q4_K_M` file, the first fallback pattern matched by some
   * `.gguf` file decides, and the least such file is chosen.
   */
  lemma FallbackPatternWins(files: seq<string>, k: int)
    requires forall f | f in files :: !IsPreferredGguf(f)
    requires IsFirstHit(GgufFiles(files), FallbackPatterns, k)
    ensures SelectGgufFile(files).Some?
    ensures IsLeastMatch(SelectGgufFile(files).value, GgufFiles(files), FallbackPatterns[k])
  {
    var preferred := Filter(files, IsPreferredGguf);
    NonEmptyHasMember(preferred);
    var f :| f in GgufFiles(files) && Contains(f, FallbackPatterns[k]);
    assert |GgufFiles(files)| > 0;
  }

  /**
   * When neither `Q4_K_M` nor any fallback pattern occurs, the least
   * `.gguf` file is chosen.
   */
  lemma AnyGgufLastResort(files: seq<string>)
    requires forall f | f in files :: !IsPreferredGguf(f)
    requires forall k | 0 <= k < |FallbackPatterns| :: !HasMatch(GgufFiles(files), FallbackPatterns[k])
    requires exists f | f in files :: IsGguf(f)
    ensures SelectGgufFile(files).Some?
    ensures forall g | g in files && IsGguf(g) :: LexLe(SelectGgufFile(files).value, g)
  {
    var preferred := Filter(files, IsPreferredGguf);
    NonEmptyHasMember(preferred);
    var f :| f in files && IsGguf(f);
    assert f in GgufFiles(files);
  }

  /**
   * `find_best_gguf_file(model_id)`: `listing` is what listing the
   * repository returned, `None` when that call raised (the error is then
   * reported and the result is `None`).
   */
  function FindBestGgufFile(listing: Option<seq<string>>): (r: Option<string>)
    ensures listing.None? ==> r.None?
    ensures listing.Some? ==> (r.None? <==> forall f | f in listing.value :: !IsGguf(f))
    ensures r.Some? ==> listing.Some? && r.value in listing.value && IsGguf(r.value)
  {
    match listing
    case None => None
    case Some(files) => SelectGgufFile(files)
  }

  /**
   * Stated as an implication so that callers whose list is empty (the
   * preferred files above) face no index they cannot reach.
   */
  lemma NonEmptyHasMember(xs: seq<string>)
    ensures |xs| > 0 ==> xs[0] in xs
  {
  }
}
