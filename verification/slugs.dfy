/**
 The slug sanitiser and validator of the publishing endpoint.

 A slug is the identifier of an article: its storage key and the last segment
 of its public path. `Sanitize` turns arbitrary text into a best-effort slug;
 `ValidateSlug` checks length bounds and the slug grammar
 `^[a-z0-9]+(?:-[a-z0-9]+)*$`, reporting the first rule that fails.
 */
module Slugs {
  import opened Strings

  /** Characters a slug may hold: `[a-z0-9]` and the hyphen. */
  predicate IsSlugChar(c: char) {
    IsLowerAlnum(c) || c == '-'
  }

  /** Characters that survive the "remove special chars" stage: `[a-z0-9\s-]`. */
  predicate IsKeptChar(c: char) {
    IsLowerAlnum(c) || IsJsSpace(c) || c == '-'
  }

  predicate AllSlugChars(s: string) {
    forall i :: 0 <= i < |s| ==> IsSlugChar(s[i])
  }

  predicate NoDoubleHyphen(s: string) {
    forall i :: 0 <= i < |s| - 1 ==> !(s[i] == '-' && s[i + 1] == '-')
  }

  predicate NoEdgeHyphen(s: string) {
    |s| > 0 ==> s[0] != '-' && s[|s| - 1] != '-'
  }

  /** The shape every sanitised string has; the empty string included. */
  predicate IsCanonical(s: string) {
    AllSlugChars(s) && NoDoubleHyphen(s) && NoEdgeHyphen(s)
  }

  /** The letters and digits of `s`, in order. */
  function Alnums(s: string): string {
    if s == [] then []
    else (if IsLowerAlnum(s[0]) then [s[0]] else []) + Alnums(s[1..])
  }

  // ---------------------------------------------------------------------------
  // The grammar
  // ---------------------------------------------------------------------------

  /** One `[a-z0-9]+` group. */
  predicate IsGroup(g: string) {
    |g| > 0 && forall i :: 0 <= i < |g| ==> IsLowerAlnum(g[i])
  }

  /**
   The language of `^[a-z0-9]+(?:-[a-z0-9]+)*$`, read off the expression: one
   or more groups joined by single hyphens.
   */
  ghost predicate InSlugLanguage(s: string) {
    exists groups: seq<string> ::
      && |groups| >= 1
      && (forall k :: 0 <= k < |groups| ==> IsGroup(groups[k]))
      && s == Join(groups, '-')
  }

  /** The character-level test the validator runs in place of the expression. */
  predicate MatchesSlugPattern(s: string)
    ensures MatchesSlugPattern(s) <==> InSlugLanguage(s)
  {
    PatternIsLanguage(s);
    |s| > 0 && IsCanonical(s)
  }

  /** Both directions: the character-level test accepts exactly the expression's language. */
  lemma PatternIsLanguage(s: string)
    ensures (|s| > 0 && IsCanonical(s)) <==> InSlugLanguage(s)
  {
    if |s| > 0 && IsCanonical(s) {
      var groups := Split(s, '-');
      JoinSplit(s, '-');
      CanonicalPiecesNonEmpty(s);
      forall k | 0 <= k < |groups|
        ensures IsGroup(groups[k])
      {
        forall i | 0 <= i < |groups[k]|
          ensures IsLowerAlnum(groups[k][i])
        {
          assert groups[k][i] in groups[k];
          assert groups[k][i] in s;
          assert groups[k][i] != '-';
        }
      }
    }
    if InSlugLanguage(s) {
      var groups: seq<string> :|
        && |groups| >= 1
        && (forall k :: 0 <= k < |groups| ==> IsGroup(groups[k]))
        && s == Join(groups, '-');
      JoinedGroupsCanonical(groups);
    }
  }

  /** Groups joined by hyphens form a non-empty canonical string. */
  lemma {:induction false} JoinedGroupsCanonical(groups: seq<string>)
    requires |groups| >= 1
    requires forall k :: 0 <= k < |groups| ==> IsGroup(groups[k])
    ensures |Join(groups, '-')| > 0 && IsCanonical(Join(groups, '-'))
  {
    var g := groups[0];
    assert IsGroup(g);
    if |groups| > 1 {
      var rest := Join(groups[1..], '-');
      JoinedGroupsCanonical(groups[1..]);
      var s := Join(groups, '-');
      assert s == g + ['-'] + rest;
      assert IsGroup(groups[1]);
      assert rest[0] != '-';
      forall i | 0 <= i < |s| - 1
        ensures !(s[i] == '-' && s[i + 1] == '-')
      {
        if i < |g| {
          assert s[i] == g[i];
        } else if i > |g| {
          assert s[i] == rest[i - |g| - 1] && s[i + 1] == rest[i - |g|];
        }
      }
      forall i | 0 <= i < |s|
        ensures IsSlugChar(s[i])
      {
        if i < |g| {
          assert s[i] == g[i];
        } else if i > |g| {
          assert s[i] == rest[i - |g| - 1];
        }
      }
      assert s[|s| - 1] == rest[|rest| - 1];
    }
  }

  /** Every piece between the hyphens of a non-empty canonical string is non-empty. */
  lemma CanonicalPiecesNonEmpty(s: string)
    requires |s| > 0 && IsCanonical(s)
    ensures forall k :: 0 <= k < |Split(s, '-')| ==> Split(s, '-')[k] != []
  {
    LaterPiecesNonEmpty(s);
  }

  /**
   Every piece after the first is non-empty in a string that has no doubled
   hyphen and does not end with one.
   */
  lemma {:induction false} LaterPiecesNonEmpty(t: string)
    requires NoDoubleHyphen(t)
    requires |t| > 0 ==> t[|t| - 1] != '-'
    ensures forall k :: 1 <= k < |Split(t, '-')| ==> Split(t, '-')[k] != []
    ensures |t| > 0 && t[0] != '-' ==> Split(t, '-')[0] != []
  {
    if |t| > 0 {
      var tail := t[1..];
      assert NoDoubleHyphen(tail) by {
        forall i | 0 <= i < |tail| - 1
          ensures !(tail[i] == '-' && tail[i + 1] == '-')
        {
          assert tail[i] == t[i + 1] && tail[i + 1] == t[i + 2];
        }
      }
      LaterPiecesNonEmpty(tail);
      if t[0] == '-' {
        assert |tail| > 0 && tail[0] != '-';
      }
    }
  }

  // ---------------------------------------------------------------------------
  // The validator
  // ---------------------------------------------------------------------------

  const MinLength: nat := 3
  const MaxLength: nat := 100

  /** The rule a rejected slug broke, in checking order. */
  datatype SlugError = Required | TooShort | TooLong | BadCharacters {
    /** The message the endpoint returns to the caller. */
    function Message(): string {
      match this
      case Required => "Slug is required"
      case TooShort => "Slug must be at least 3 characters"
      case TooLong => "Slug must be less than 100 characters"
      case BadCharacters => "Slug must contain only lowercase letters, numbers, and hyphens"
    }
  }

  /** `{ valid: true }` or `{ valid: false, error }`. */
  datatype Validation = Valid | Invalid(error: SlugError)

  /**
   `validateSlug`: the empty check, then the minimum length, then the maximum
   length, then the grammar; the first failure is reported. A length of
   exactly 100 passes, whatever the message says.
   */
  function ValidateSlug(slug: string): (r: Validation)
    ensures r == Invalid(Required) <==> |slug| == 0
    ensures r == Invalid(TooShort) <==> 0 < |slug| < MinLength
    ensures r == Invalid(TooLong) <==> |slug| > MaxLength
    ensures r == Invalid(BadCharacters) <==>
      MinLength <= |slug| <= MaxLength && !InSlugLanguage(slug)
    ensures r.Valid? <==> MinLength <= |slug| <= MaxLength && InSlugLanguage(slug)
  {
    if |slug| == 0 then Invalid(Required)
    else if |slug| < MinLength then Invalid(TooShort)
    else if |slug| > MaxLength then Invalid(TooLong)
    else if !MatchesSlugPattern(slug) then Invalid(BadCharacters)
    else Valid
  }

  // ---------------------------------------------------------------------------
  // The sanitiser, one function per stage of the chain
  // ---------------------------------------------------------------------------

  /** Drops the whitespace at the start. */
  function TrimStart(s: string): (r: string)
    ensures |r| <= |s|
    ensures |r| > 0 ==> !IsJsSpace(r[0])
  {
    if s != [] && IsJsSpace(s[0]) then TrimStart(s[1..]) else s
  }

  /** What `TrimStart` keeps is a suffix of `s`, after whitespace only. */
  lemma {:induction false} TrimStartSuffix(s: string)
    ensures |TrimStart(s)| <= |s| && TrimStart(s) == s[|s| - |TrimStart(s)|..]
    ensures forall i :: 0 <= i < |s| - |TrimStart(s)| ==> IsJsSpace(s[i])
  {
    if s != [] && IsJsSpace(s[0]) {
      TrimStartSuffix(s[1..]);
      assert forall i :: 1 <= i < |s| ==> s[i] == s[1..][i - 1];
    }
  }

  /** Drops the whitespace at the end. */
  function TrimEnd(s: string): (r: string)
    ensures |r| <= |s|
    ensures |r| > 0 ==> !IsJsSpace(r[|r| - 1])
    ensures |s| > 0 && !IsJsSpace(s[0]) ==> |r| > 0 && r[0] == s[0]
  {
    if s != [] && IsJsSpace(s[|s| - 1]) then TrimEnd(s[..|s| - 1]) else s
  }

  /** What `TrimEnd` keeps is a prefix of `s`, before whitespace only. */
  lemma {:induction false} TrimEndPrefix(s: string)
    ensures |TrimEnd(s)| <= |s| && TrimEnd(s) == s[..|TrimEnd(s)|]
    ensures forall i :: |TrimEnd(s)| <= i < |s| ==> IsJsSpace(s[i])
  {
    if s != [] && IsJsSpace(s[|s| - 1]) {
      var init := s[..|s| - 1];
      TrimEndPrefix(init);
      assert forall i :: 0 <= i < |init| ==> init[i] == s[i];
    }
  }

  /** `trim()`: drops whitespace at both ends. */
  function Trim(s: string): (r: string)
    ensures |r| > 0 ==> !IsJsSpace(r[0]) && !IsJsSpace(r[|r| - 1])
    ensures var k := |s| - |TrimStart(s)|; k + |r| <= |s| && r == s[k..k + |r|]
  {
    var t := TrimStart(s);
    var r := TrimEnd(t);
    TrimStartSuffix(s);
    TrimEndPrefix(t);
    SliceOfSuffix(s, |s| - |t|, |r|);
    r
  }

  /** A prefix of a suffix is a slice. */
  lemma SliceOfSuffix(s: string, k: nat, n: nat)
    requires k + n <= |s|
    ensures s[k..][..n] == s[k..k + n]
  {
  }

  /** Everything `trim()` drops is whitespace. */
  lemma TrimDropsSpaces(s: string)
    ensures forall i :: 0 <= i < |s| - |TrimStart(s)| ==> IsJsSpace(s[i])
    ensures forall i :: |s| - |TrimStart(s)| + |Trim(s)| <= i < |s| ==> IsJsSpace(s[i])
  {
    var t := TrimStart(s);
    TrimStartSuffix(s);
    TrimEndPrefix(t);
    SpacesAfter(s, |s| - |t|, |TrimEnd(t)|);
  }

  /** Whitespace at the end of a suffix is whitespace at the end of the whole. */
  lemma SpacesAfter(s: string, k: nat, n: nat)
    requires k + n <= |s|
    requires forall j :: n <= j < |s| - k ==> IsJsSpace(s[k..][j])
    ensures forall i :: k + n <= i < |s| ==> IsJsSpace(s[i])
  {
    forall i | k + n <= i < |s|
      ensures IsJsSpace(s[i])
    {
      assert s[k..][i - k] == s[i];
    }
  }

  /** Text without whitespace at its ends is left alone by `trim()`. */
  lemma TrimFixes(s: string)
    requires |s| > 0 ==> !IsJsSpace(s[0]) && !IsJsSpace(s[|s| - 1])
    ensures Trim(s) == s
  {
    assert TrimStart(s) == s;
    assert TrimEnd(s) == s;
  }

  /** `replace(/[^a-z0-9\s-]/g, '')`: keeps letters, digits, whitespace and hyphens. */
  function StripDisallowed(s: string): (r: string)
    ensures |r| <= |s|
    ensures forall i :: 0 <= i < |r| ==> IsKeptChar(r[i])
  {
    if s == [] then []
    else (if IsKeptChar(s[0]) then [s[0]] else []) + StripDisallowed(s[1..])
  }

  /** The filter keeps every kept character as often as it occurs, and no other. */
  lemma {:induction false} StripCounts(s: string)
    ensures forall c :: multiset(StripDisallowed(s))[c] == (if IsKeptChar(c) then multiset(s)[c] else 0)
  {
    if s != [] {
      StripCounts(s[1..]);
      assert s == [s[0]] + s[1..];
    }
  }

  /** The filter keeps order: filtering a concatenation concatenates the filtered parts. */
  lemma {:induction false} StripKeepsOrder(a: string, b: string)
    ensures StripDisallowed(a + b) == StripDisallowed(a) + StripDisallowed(b)
  {
    if a != [] {
      var h := if IsKeptChar(a[0]) then [a[0]] else [];
      StripKeepsOrder(a[1..], b);
      ConsAppend(a, b);
      assert StripDisallowed(a + b) == h + StripDisallowed(a[1..] + b);
      AppendAssoc(h, StripDisallowed(a[1..]), StripDisallowed(b));
    } else {
      assert a + b == b;
    }
  }

  /** `replace(/\s+/g, '-')`: each maximal whitespace run becomes one hyphen. */
  function SpacesToHyphens(s: string): (r: string)
    requires forall i :: 0 <= i < |s| ==> IsKeptChar(s[i])
    ensures AllSlugChars(r)
  {
    if s == [] then []
    else if IsJsSpace(s[0]) && |s| > 1 && IsJsSpace(s[1]) then
      SpacesToHyphens(s[1..])
    else
      var head := if IsJsSpace(s[0]) then '-' else s[0];
      var rest := SpacesToHyphens(s[1..]);
      assert IsKeptChar(s[0]);
      assert forall i :: 0 < i < |[head] + rest| ==> ([head] + rest)[i] == rest[i - 1];
      [head] + rest
  }

  /** `replace(/-+/g, '-')`: each maximal hyphen run becomes one hyphen. */
  function CollapseHyphens(s: string): (r: string)
    requires AllSlugChars(s)
    ensures AllSlugChars(r) && NoDoubleHyphen(r)
    ensures |s| > 0 ==> |r| > 0 && r[0] == s[0] && r[|r| - 1] == s[|s| - 1]
  {
    if s == [] then []
    else if |s| > 1 && s[0] == '-' && s[1] == '-' then
      CollapseHyphens(s[1..])
    else
      var rest := CollapseHyphens(s[1..]);
      assert forall i :: 0 < i < |[s[0]] + rest| ==> ([s[0]] + rest)[i] == rest[i - 1];
      [s[0]] + rest
  }

  /** The `^-` alternative: drops one leading hyphen. */
  function DropLeadingHyphen(s: string): (r: string)
    requires AllSlugChars(s) && NoDoubleHyphen(s)
    ensures AllSlugChars(r) && NoDoubleHyphen(r)
    ensures |r| > 0 ==> r[0] != '-'
  {
    if |s| > 0 && s[0] == '-' then
      assert forall i :: 0 <= i < |s| - 1 ==> s[1..][i] == s[i + 1];
      s[1..]
    else
      s
  }

  /** The `-$` alternative: drops one trailing hyphen. */
  function DropTrailingHyphen(s: string): (r: string)
    requires AllSlugChars(s) && NoDoubleHyphen(s)
    requires |s| > 0 ==> s[0] != '-'
    ensures IsCanonical(r)
  {
    if |s| > 0 && s[|s| - 1] == '-' then
      assert |s| > 1;
      assert s[..|s| - 1][|s| - 2] == s[|s| - 2];
      s[..|s| - 1]
    else
      s
  }

  /**
   `replace(/^-|-$/g, '')`: drops one leading and one trailing hyphen (the
   single hyphen `"-"` becomes empty).
   */
  function StripEdgeHyphens(s: string): (r: string)
    requires AllSlugChars(s) && NoDoubleHyphen(s)
    ensures IsCanonical(r)
  {
    DropTrailingHyphen(DropLeadingHyphen(s))
  }

  /**
   `sanitizeSlug`: the whole chain, in the source's order. Whatever the
   input, the result is canonical: only `[a-z0-9-]`, no doubled hyphen and no
   hyphen at either end.
   */
  function Sanitize(input: string): (r: string)
    ensures IsCanonical(r)
  {
    var trimmed := Trim(ToLower(input));
    var kept := StripDisallowed(trimmed);
    StripEdgeHyphens(CollapseHyphens(SpacesToHyphens(kept)))
  }

  // ---------------------------------------------------------------------------
  // Every stage keeps the letters and digits, in order
  // ---------------------------------------------------------------------------

  lemma AlnumsCons(c: char, t: string)
    ensures Alnums([c] + t) == (if IsLowerAlnum(c) then [c] else []) + Alnums(t)
  {
    assert ([c] + t)[0] == c && ([c] + t)[1..] == t;
  }

  lemma {:induction false} AlnumsAppend(a: string, b: string)
    ensures Alnums(a + b) == Alnums(a) + Alnums(b)
  {
    if a == [] {
      assert a + b == b;
    } else {
      AlnumsAppend(a[1..], b);
      assert a + b == [a[0]] + (a[1..] + b);
      assert a == [a[0]] + a[1..];
      AlnumsCons(a[0], a[1..] + b);
      AlnumsCons(a[0], a[1..]);
    }
  }

  lemma {:induction false} TrimAlnums(s: string)
    ensures Alnums(Trim(s)) == Alnums(s)
  {
    TrimStartAlnums(s);
    TrimEndAlnums(TrimStart(s));
  }

  lemma {:induction false} TrimStartAlnums(s: string)
    ensures Alnums(TrimStart(s)) == Alnums(s)
  {
    if s != [] && IsJsSpace(s[0]) {
      TrimStartAlnums(s[1..]);
    }
  }

  lemma {:induction false} TrimEndAlnums(s: string)
    ensures Alnums(TrimEnd(s)) == Alnums(s)
  {
    if s != [] && IsJsSpace(s[|s| - 1]) {
      var init := s[..|s| - 1];
      TrimEndAlnums(init);
      AlnumsAppend(init, [s[|s| - 1]]);
      assert s == init + [s[|s| - 1]];
    }
  }

  lemma {:induction false} StripAlnums(s: string)
    ensures Alnums(StripDisallowed(s)) == Alnums(s)
  {
    if s != [] {
      var head := if IsKeptChar(s[0]) then [s[0]] else [];
      StripAlnums(s[1..]);
      AlnumsAppend(head, StripDisallowed(s[1..]));
    }
  }

  lemma {:induction false} SpacesAlnums(s: string)
    requires forall i :: 0 <= i < |s| ==> IsKeptChar(s[i])
    ensures Alnums(SpacesToHyphens(s)) == Alnums(s)
  {
    if s != [] {
      SpacesAlnums(s[1..]);
      if !(IsJsSpace(s[0]) && |s| > 1 && IsJsSpace(s[1])) {
        var head := if IsJsSpace(s[0]) then '-' else s[0];
        AlnumsAppend([head], SpacesToHyphens(s[1..]));
      }
    }
  }

  lemma {:induction false} CollapseAlnums(s: string)
    requires AllSlugChars(s)
    ensures Alnums(CollapseHyphens(s)) == Alnums(s)
  {
    if s != [] {
      CollapseAlnums(s[1..]);
      if !(|s| > 1 && s[0] == '-' && s[1] == '-') {
        AlnumsAppend([s[0]], CollapseHyphens(s[1..]));
      }
    }
  }

  lemma LeadingAlnums(s: string)
    requires AllSlugChars(s) && NoDoubleHyphen(s)
    ensures Alnums(DropLeadingHyphen(s)) == Alnums(s)
  {
    if |s| > 0 && s[0] == '-' {
      assert s == ['-'] + DropLeadingHyphen(s);
      AlnumsCons('-', DropLeadingHyphen(s));
    }
  }

  lemma TrailingAlnums(a: string)
    requires AllSlugChars(a) && NoDoubleHyphen(a)
    requires |a| > 0 ==> a[0] != '-'
    ensures Alnums(DropTrailingHyphen(a)) == Alnums(a)
  {
    if |a| > 0 && a[|a| - 1] == '-' {
      var init := a[..|a| - 1];
      assert a == init + ['-'];
      AlnumsAppend(init, ['-']);
      AlnumsCons('-', []);
      assert ['-'] + [] == ['-'];
    }
  }

  lemma EdgeAlnums(s: string)
    requires AllSlugChars(s) && NoDoubleHyphen(s)
    ensures Alnums(StripEdgeHyphens(s)) == Alnums(s)
  {
    LeadingAlnums(s);
    TrailingAlnums(DropLeadingHyphen(s));
  }



  /** The sanitiser keeps every letter and digit of the lower-cased input, in order. */
  lemma SanitizeKeepsAlnums(input: string)
    ensures Alnums(Sanitize(input)) == Alnums(ToLower(input))
  {
    var trimmed := Trim(ToLower(input));
    var kept := StripDisallowed(trimmed);
    TrimAlnums(ToLower(input));
    StripAlnums(trimmed);
    SpacesAlnums(kept);
    CollapseAlnums(SpacesToHyphens(kept));
    EdgeAlnums(CollapseHyphens(SpacesToHyphens(kept)));
  }

  // ---------------------------------------------------------------------------
  // An independent description of the sanitiser
  // ---------------------------------------------------------------------------

  /**
   The letters and digits of `s`, in order, with exactly one hyphen wherever
   a run of other characters separates two of them; nothing is emitted for
   separators before the first or after the last letter or digit. `started`
   says whether a letter or digit has been emitted, `gap` whether a
   separator has been seen since.
   */
  function Squashed(s: string, started: bool, gap: bool): string {
    if s == [] then []
    else if IsLowerAlnum(s[0]) then
      (if started && gap then ['-', s[0]] else [s[0]]) + Squashed(s[1..], true, false)
    else
      Squashed(s[1..], started, true)
  }

  lemma SquashedCons(c: char, t: string, started: bool, gap: bool)
    ensures Squashed([c] + t, started, gap) ==
      if IsLowerAlnum(c) then (if started && gap then ['-', c] else [c]) + Squashed(t, true, false)
      else Squashed(t, started, true)
  {
    assert ([c] + t)[0] == c && ([c] + t)[1..] == t;
  }

  /** Before the first letter or digit, separators emit nothing. */
  lemma GapBeforeStartIgnored(s: string)
    ensures Squashed(s, false, true) == Squashed(s, false, false)
  {
  }

  /** A separator at the end emits nothing. */
  lemma {:induction false} TrailingSeparatorIgnored(s: string, c: char, started: bool, gap: bool)
    requires !IsLowerAlnum(c)
    ensures Squashed(s + [c], started, gap) == Squashed(s, started, gap)
  {
    if s == [] {
      SquashedCons(c, [], started, gap);
      assert [c] + [] == s + [c];
    } else {
      assert s + [c] == [s[0]] + (s[1..] + [c]);
      SquashedCons(s[0], s[1..] + [c], started, gap);
      if IsLowerAlnum(s[0]) {
        TrailingSeparatorIgnored(s[1..], c, true, false);
      } else {
        TrailingSeparatorIgnored(s[1..], c, started, true);
      }
    }
  }

  /** Rewriting whitespace runs as hyphens changes nothing the description sees. */
  lemma {:induction false} SpacesSquashed(s: string, started: bool, gap: bool)
    requires forall i :: 0 <= i < |s| ==> IsKeptChar(s[i])
    ensures Squashed(SpacesToHyphens(s), started, gap) == Squashed(s, started, gap)
  {
    if s != [] {
      var tail := s[1..];
      assert forall i :: 0 <= i < |tail| ==> tail[i] == s[i + 1];
      if IsJsSpace(s[0]) && |s| > 1 && IsJsSpace(s[1]) {
        SpacesSquashed(tail, started, gap);
      } else {
        var head := if IsJsSpace(s[0]) then '-' else s[0];
        SquashedCons(head, SpacesToHyphens(tail), started, gap);
        if IsLowerAlnum(s[0]) {
          SpacesSquashed(tail, true, false);
        } else {
          SpacesSquashed(tail, started, true);
        }
      }
    }
  }

  /** Collapsing hyphen runs changes nothing the description sees. */
  lemma {:induction false} CollapseSquashed(s: string, started: bool, gap: bool)
    requires AllSlugChars(s)
    ensures Squashed(CollapseHyphens(s), started, gap) == Squashed(s, started, gap)
  {
    if s != [] {
      var tail := s[1..];
      assert forall i :: 0 <= i < |tail| ==> tail[i] == s[i + 1];
      if |s| > 1 && s[0] == '-' && s[1] == '-' {
        CollapseSquashed(tail, started, gap);
      } else {
        SquashedCons(s[0], CollapseHyphens(tail), started, gap);
        if IsLowerAlnum(s[0]) {
          CollapseSquashed(tail, true, false);
        } else {
          CollapseSquashed(tail, started, true);
        }
      }
    }
  }

  /** Dropping the edge hyphens changes nothing the description sees. */
  lemma EdgeSquashed(s: string)
    requires AllSlugChars(s) && NoDoubleHyphen(s)
    ensures Squashed(StripEdgeHyphens(s), false, false) == Squashed(s, false, false)
  {
    var a := DropLeadingHyphen(s);
    if |s| > 0 && s[0] == '-' {
      GapBeforeStartIgnored(s[1..]);
    }
    if |a| > 0 && a[|a| - 1] == '-' {
      assert a == a[..|a| - 1] + ['-'];
      TrailingSeparatorIgnored(a[..|a| - 1], '-', false, false);
    }
  }

  /** A canonical string is its own description. */
  lemma {:induction false} SquashedCanonical(s: string, started: bool)
    requires |s| > 0 && IsCanonical(s)
    ensures Squashed(s, started, false) == s
    ensures Squashed(s, true, true) == ['-'] + s
    decreases |s|, 1
  {
    SquashedAfterHead(s);
    SquashedCons(s[0], s[1..], started, false);
    SquashedCons(s[0], s[1..], true, true);
    assert [s[0]] + s[1..] == s;
  }

  /** After the leading letter or digit, the rest of a canonical string describes itself. */
  lemma {:induction false} SquashedAfterHead(s: string)
    requires |s| > 0 && IsCanonical(s)
    ensures IsLowerAlnum(s[0])
    ensures Squashed(s[1..], true, false) == s[1..]
    decreases |s|, 0
  {
    if |s| > 1 {
      if s[1] != '-' {
        CanonicalDrop(s, 1);
        SquashedCanonical(s[1..], true);
      } else {
        assert |s| > 2 && s[2] != '-';
        CanonicalDrop(s, 2);
        SquashedCanonical(s[2..], true);
        SquashedCons('-', s[2..], true, false);
        assert s[1..] == ['-'] + s[2..];
      }
    }
  }

  /** A suffix of a canonical string that does not start with a hyphen is canonical. */
  lemma CanonicalDrop(s: string, k: nat)
    requires IsCanonical(s) && k <= |s|
    requires k < |s| ==> s[k] != '-'
    ensures IsCanonical(s[k..])
  {
    assert forall i :: 0 <= i < |s| - k ==> s[k..][i] == s[i + k];
  }

  /**
   The sanitiser is the description applied to the kept characters: the runs
   of letters and digits of the trimmed, lower-cased, filtered input, joined
   by single hyphens.
   */
  lemma SanitizeIsSquashed(input: string)
    ensures Sanitize(input) == Squashed(StripDisallowed(Trim(ToLower(input))), false, false)
  {
    var kept := StripDisallowed(Trim(ToLower(input)));
    var a := SpacesToHyphens(kept);
    SpacesSquashed(kept, false, false);
    CollapseSquashed(a, false, false);
    EdgeSquashed(CollapseHyphens(a));
    if Sanitize(input) != [] {
      SquashedCanonical(Sanitize(input), false);
    }
  }

  // ---------------------------------------------------------------------------
  // Properties of the sanitiser and the validator together
  // ---------------------------------------------------------------------------

  /** A non-empty sanitised string is in the slug language. */
  lemma SanitizedInLanguage(input: string)
    ensures Sanitize(input) != [] ==> InSlugLanguage(Sanitize(input))
  {
    PatternIsLanguage(Sanitize(input));
  }

  /** Validating a sanitised string can fail only on emptiness or length, never on the grammar. */
  lemma ValidateSanitized(input: string)
    ensures ValidateSlug(Sanitize(input)) != Invalid(BadCharacters)
  {
    SanitizedInLanguage(input);
  }

  /** The sanitiser is empty exactly when the (lower-cased) input has no letter or digit. */
  lemma {:induction false} SanitizeEmptyIff(input: string)
    ensures Sanitize(input) == [] <==> Alnums(ToLower(input)) == []
  {
    var r := Sanitize(input);
    SanitizeKeepsAlnums(input);
    if r != [] {
      assert IsLowerAlnum(r[0]);
      assert Alnums(r) == [r[0]] + Alnums(r[1..]);
    }
  }

  /** Canonical strings pass through the sanitiser unchanged. */
  lemma SanitizeFixesCanonical(s: string)
    requires IsCanonical(s)
    ensures Sanitize(s) == s
  {
    ToLowerFixes(s);
    TrimFixes(s);
    StripFixes(s);
    SpacesFixes(s);
    CollapseFixes(s);
    EdgeFixes(s);
  }

  lemma EdgeFixes(s: string)
    requires IsCanonical(s)
    ensures StripEdgeHyphens(s) == s
  {
  }

  /** `sanitizeSlug(sanitizeSlug(x)) == sanitizeSlug(x)`. */
  lemma SanitizeIdempotent(input: string)
    ensures Sanitize(Sanitize(input)) == Sanitize(input)
  {
    SanitizeFixesCanonical(Sanitize(input));
  }

  /** A slug the validator accepts is returned unchanged by the sanitiser. */
  lemma ValidSlugIsSanitized(slug: string)
    requires ValidateSlug(slug).Valid?
    ensures Sanitize(slug) == slug
  {
    PatternIsLanguage(slug);
    SanitizeFixesCanonical(slug);
  }

  lemma ToLowerFixes(s: string)
    requires AllSlugChars(s)
    ensures ToLower(s) == s
  {
  }

  lemma {:induction false} StripFixes(s: string)
    requires AllSlugChars(s)
    ensures StripDisallowed(s) == s
  {
    if s != [] {
      StripFixes(s[1..]);
      assert [s[0]] + s[1..] == s;
    }
  }

  lemma {:induction false} SpacesFixes(s: string)
    requires AllSlugChars(s)
    ensures SpacesToHyphens(s) == s
  {
    if s != [] {
      SpacesFixes(s[1..]);
      assert [s[0]] + s[1..] == s;
    }
  }

  lemma {:induction false} CollapseFixes(s: string)
    requires AllSlugChars(s) && NoDoubleHyphen(s)
    ensures CollapseHyphens(s) == s
  {
    if s != [] {
      assert NoDoubleHyphen(s[1..]) by {
        forall i | 0 <= i < |s[1..]| - 1
          ensures !(s[1..][i] == '-' && s[1..][i + 1] == '-')
        {
          assert s[1..][i] == s[i + 1];
        }
      }
      CollapseFixes(s[1..]);
      assert [s[0]] + s[1..] == s;
    }
  }
}

/** Worked examples of the slug rules on concrete strings. */
module SlugExamples {
  import opened Strings
  import opened Slugs

  /** Upper-case ASCII is lowered, not dropped; the space runs become hyphens. */
  lemma SanitizeExample()
    ensures Sanitize("My First Post!") == "my-first-post"
  {
    SanitizeSteps("My First Post!");
  }

  /**
   The example, stage by stage. The strings are parameters so that the solver
   does not unfold the recursive stages on literal arguments.
   */
  lemma SanitizeSteps(input: string)
    requires input == "My First Post!"
    ensures Sanitize(input) == "my-first-post"
  {
    var lowered, kept, hyphened := "my first post!", "my first post", "my-first-post";
    StepLower(input, lowered);
    StepTrim(lowered);
    StepStrip(lowered, kept);
    StepSpaces(kept, hyphened);
    StepCanonical(hyphened);
  }

  lemma StepTrim(lowered: string)
    requires lowered == "my first post!"
    ensures Trim(lowered) == lowered
  {
    TrimFixes(lowered);
  }

  lemma StepLower(input: string, lowered: string)
    requires input == "My First Post!" && lowered == "my first post!"
    ensures ToLower(input) == lowered
  {
    assert forall i :: 0 <= i < |input| ==> LowerChar(input[i]) == lowered[i];
  }

  lemma StepStrip(lowered: string, kept: string)
    requires lowered == "my first post!" && kept == "my first post"
    ensures StripDisallowed(lowered) == kept
  {
    assert lowered == kept + ['!'];
    KeptChars(kept);
    StripDropsLast(kept, '!');
  }

  lemma StepSpaces(kept: string, hyphened: string)
    requires kept == "my first post" && hyphened == "my-first-post"
    ensures forall i :: 0 <= i < |kept| ==> IsKeptChar(kept[i])
    ensures SpacesToHyphens(kept) == hyphened
  {
    StepSpacesChars(kept, hyphened);
    SpacesInPlace(kept, hyphened);
  }

  lemma StepSpacesChars(kept: string, hyphened: string)
    requires kept == "my first post" && hyphened == "my-first-post"
    ensures |kept| == |hyphened|
    ensures forall i :: 0 <= i < |kept| ==> IsKeptChar(kept[i])
    ensures forall i :: 0 <= i < |kept| - 1 ==> !(IsJsSpace(kept[i]) && IsJsSpace(kept[i + 1]))
    ensures forall i :: 0 <= i < |kept| ==> HyphenFor(kept[i]) == hyphened[i]
  {
  }

  /** With single whitespace characters only, the rewrite is the in-place map `HyphenFor`. */
  lemma SpacesInPlace(s: string, t: string)
    requires |s| == |t|
    requires forall i :: 0 <= i < |s| ==> IsKeptChar(s[i])
    requires forall i :: 0 <= i < |s| - 1 ==> !(IsJsSpace(s[i]) && IsJsSpace(s[i + 1]))
    requires forall i :: 0 <= i < |s| ==> HyphenFor(s[i]) == t[i]
    ensures SpacesToHyphens(s) == t
  {
    SpacesSingleRuns(s);
  }

  lemma StepCanonical(hyphened: string)
    requires hyphened == "my-first-post"
    ensures IsCanonical(hyphened)
    ensures StripEdgeHyphens(CollapseHyphens(hyphened)) == hyphened
  {
    StepCanonicalChars(hyphened);
    CollapseFixes(hyphened);
  }

  lemma StepCanonicalChars(hyphened: string)
    requires hyphened == "my-first-post"
    ensures IsCanonical(hyphened)
  {
    assert forall i :: 0 <= i < |hyphened| ==> IsSlugChar(hyphened[i]);
    assert forall i :: 0 <= i < |hyphened| - 1 ==> !(hyphened[i] == '-' && hyphened[i + 1] == '-');
  }

  lemma KeptChars(kept: string)
    requires kept == "my first post"
    ensures forall i :: 0 <= i < |kept| ==> IsKeptChar(kept[i])
  {
  }

  lemma StripConsKept(c: char, t: string)
    requires IsKeptChar(c)
    ensures StripDisallowed([c] + t) == [c] + StripDisallowed(t)
  {
    assert ([c] + t)[0] == c && ([c] + t)[1..] == t;
  }

  lemma StripConsDropped(c: char, t: string)
    requires !IsKeptChar(c)
    ensures StripDisallowed([c] + t) == StripDisallowed(t)
  {
    assert ([c] + t)[0] == c && ([c] + t)[1..] == t;
  }


  /** A run of kept characters followed by one dropped character strips to the run. */
  lemma {:induction false} StripDropsLast(s: string, c: char)
    requires forall i :: 0 <= i < |s| ==> IsKeptChar(s[i])
    requires !IsKeptChar(c)
    ensures StripDisallowed(s + [c]) == s
  {
    if s == [] {
      StripConsDropped(c, []);
      assert [c] + [] == [c];
    } else {
      StripDropsLast(s[1..], c);
      assert s + [c] == [s[0]] + (s[1..] + [c]);
      StripConsKept(s[0], s[1..] + [c]);
      assert [s[0]] + s[1..] == s;
    }
  }

  lemma {:induction false} StripFixesKept(s: string)
    requires forall i :: 0 <= i < |s| ==> IsKeptChar(s[i])
    ensures StripDisallowed(s) == s
  {
    if s != [] {
      StripFixesKept(s[1..]);
      assert [s[0]] + s[1..] == s;
    }
  }

  /** The character a lone whitespace becomes. */
  function HyphenFor(c: char): char {
    if IsJsSpace(c) then '-' else c
  }

  /** With no two whitespace characters adjacent, each one becomes a hyphen in place. */
  lemma {:induction false} SpacesSingleRuns(s: string)
    requires forall i :: 0 <= i < |s| ==> IsKeptChar(s[i])
    requires forall i :: 0 <= i < |s| - 1 ==> !(IsJsSpace(s[i]) && IsJsSpace(s[i + 1]))
    ensures |SpacesToHyphens(s)| == |s|
    ensures forall i :: 0 <= i < |s| ==> SpacesToHyphens(s)[i] == HyphenFor(s[i])
  {
    if s != [] {
      var tail := s[1..];
      assert forall i :: 0 <= i < |tail| ==> tail[i] == s[i + 1];
      SpacesSingleRuns(tail);
      assert SpacesToHyphens(s) == [HyphenFor(s[0])] + SpacesToHyphens(tail);
    }
  }

  /** The length check comes before the grammar check. */
  lemma ShortUppercaseReportsLength()
    ensures ValidateSlug("A") == Invalid(TooShort)
    ensures ValidateSlug("ab") == Invalid(TooShort)
    ensures ValidateSlug("") == Invalid(Required)
  {
  }

  /** 100 characters are accepted, 101 are not. */
  lemma LengthBoundary()
    ensures ValidateSlug(seq(100, _ => 'a')).Valid?
    ensures ValidateSlug(seq(101, _ => 'a')) == Invalid(TooLong)
  {
    var s := seq(100, _ => 'a');
    assert IsCanonical(s);
    PatternIsLanguage(s);
  }
}
