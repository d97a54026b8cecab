/** The `slugify` helper of the downloader (Django's, called with
    `allow_unicode=False`), as a chain of string functions, and what its
    output looks like. */
module Slug {
  import opened Text

  /** `unicodedata.normalize('NFKD', s).encode('ascii', 'ignore')` on text that
      is already in NFKD form (ASCII text in particular): every character
      outside ASCII is dropped. */
  function AsciiFold(s: string): (r: string)
    ensures forall k :: 0 <= k < |r| ==> Ascii.Has(r[k])
    ensures (forall k :: 0 <= k < |s| ==> Ascii.Has(s[k])) ==> r == s
  {
    FilterMembers(s, Ascii);
    FilterAll(s, Ascii);
    Filter(s, Ascii)
  }

  /** The fold works character by character: it folds the two halves of a
      string apart, and a single character outside ASCII folds to nothing. */
  lemma AsciiFoldAppend(a: string, b: string, c: char)
    ensures AsciiFold(a + b) == AsciiFold(a) + AsciiFold(b)
    ensures !Ascii.Has(c) ==> AsciiFold([c]) == []
  {
    FilterAppend(a, b, Ascii);
  }

  function AsciiLowerChar(c: char): char {
    if 'A' <= c <= 'Z' then (c as int + 32) as char else c
  }

  /** `str.lower()` on ASCII text. */
  function AsciiLower(s: string): (r: string)
    ensures |r| == |s|
    ensures forall k :: 0 <= k < |s| ==> r[k] == AsciiLowerChar(s[k])
    ensures forall k :: 0 <= k < |r| ==> !('A' <= r[k] <= 'Z')
  {
    seq(|s|, k requires 0 <= k < |s| => AsciiLowerChar(s[k]))
  }

  ghost predicate NoDoubleHyphen(s: string) {
    forall j, k :: 0 <= j < k < |s| && k == j + 1 ==> !(s[j] == '-' && s[k] == '-')
  }

  predicate IsSlugChar(c: char) { ('a' <= c <= 'z') || IsDigit(c) || c == '_' || c == '-' }

  ghost predicate SlugChars(s: string) {
    forall k :: 0 <= k < |s| ==> IsSlugChar(s[k])
  }

  /** The shape of every slug: lower-case letters, digits, `_` and `-` only,
      no `-` or `_` at either end, and no two hyphens in a row. */
  ghost predicate IsSlug(s: string) {
    && SlugChars(s)
    && (s == [] || (!Edge.Has(s[0]) && !Edge.Has(s[|s| - 1])))
    && NoDoubleHyphen(s)
  }

  /** `re.sub(r'[-\s]+', '-', s)`: every maximal run of hyphens and whitespace
      becomes a single hyphen. */
  function Collapse(s: string): (r: string)
    ensures |r| <= |s|
    ensures NoDoubleHyphen(r)
    ensures r != [] && r[0] == '-' ==> DashOrSpace.Has(s[0])
    decreases |s|
  {
    if s == [] then []
    else if DashOrSpace.Has(s[0]) then "-" + Collapse(LStrip(s[1..], DashOrSpace))
    else [s[0]] + Collapse(s[1..])
  }

  /** Collapsing only rewrites the runs: what is not a hyphen in the result is
      exactly what is neither hyphen nor whitespace in the input, in order. */
  lemma {:induction false} CollapseKeepsContent(s: string)
    ensures Filter(Collapse(s), NotHyphen) == Filter(s, NotDashOrSpace)
    decreases |s|
  {
    if s != [] {
      if DashOrSpace.Has(s[0]) {
        var rest := LStrip(s[1..], DashOrSpace);
        CollapseKeepsContent(rest);
        LStripFilter(s[1..], DashOrSpace, NotDashOrSpace);
        assert ("-" + Collapse(rest))[1..] == Collapse(rest);
      } else {
        CollapseKeepsContent(s[1..]);
        assert ([s[0]] + Collapse(s[1..]))[1..] == Collapse(s[1..]);
      }
    }
  }

  /** A non-empty run of hyphens and whitespace, followed by text that does
      not start with one, becomes a single hyphen. */
  lemma {:induction false} CollapseOfRun(run: string, b: string)
    requires run != [] && forall k :: 0 <= k < |run| ==> DashOrSpace.Has(run[k])
    requires b == [] || !DashOrSpace.Has(b[0])
    ensures Collapse(run + b) == "-" + Collapse(b)
  {
    assert (run + b)[0] == run[0];
    assert (run + b)[1..] == run[1..] + b;
    LStripRun(run[1..], b, DashOrSpace);
  }

  /** How `Collapse` reads its first character. */
  lemma {:induction false} CollapseCons(c: char, y: string)
    ensures Collapse([c] + y) == if DashOrSpace.Has(c) then "-" + Collapse(LStrip(y, DashOrSpace)) else [c] + Collapse(y)
  {
    assert ([c] + y)[1..] == y;
  }

  /** `re.sub(r'[-\s]+', '-', s)` at one run: a maximal run of hyphens and
      whitespace between `a` and `b` becomes exactly one hyphen, and the text
      on either side is collapsed on its own. */
  lemma {:induction false} CollapseSplitsAtRun(a: string, run: string, b: string)
    requires a == [] || !DashOrSpace.Has(a[|a| - 1])
    requires run != [] && forall k :: 0 <= k < |run| ==> DashOrSpace.Has(run[k])
    requires b == [] || !DashOrSpace.Has(b[0])
    ensures Collapse(a + run + b) == Collapse(a) + "-" + Collapse(b)
    decreases |a|
  {
    if a == [] {
      assert a + run + b == run + b;
      CollapseOfRun(run, b);
    } else {
      var c, tail := a[0], a[1..];
      assert a == [c] + tail;
      if !DashOrSpace.Has(c) {
        CollapseSplitsAtRun(tail, run, b);
        ConsBeforeRun(c, tail, run, b);
      } else {
        var rest := LStrip(tail, DashOrSpace);
        StripStopsBefore(tail);
        LStripAppend(tail, run + b, DashOrSpace);
        CollapseSplitsAtRun(rest, run, b);
        RunBeforeRun(c, tail, rest, run, b);
      }
    }
  }

  /** The step of `CollapseSplitsAtRun` for a first character that is kept. */
  lemma {:induction false} ConsBeforeRun(c: char, tail: string, run: string, b: string)
    requires !DashOrSpace.Has(c)
    requires Collapse(tail + run + b) == Collapse(tail) + "-" + Collapse(b)
    ensures Collapse([c] + tail + run + b) == Collapse([c] + tail) + "-" + Collapse(b)
  {
    Regroup([c], tail, run, b);
    CollapseCons(c, tail + run + b);
    CollapseCons(c, tail);
  }

  /** The step of `CollapseSplitsAtRun` for a first character that opens a
      run of its own. */
  lemma {:induction false} RunBeforeRun(c: char, tail: string, rest: string, run: string, b: string)
    requires DashOrSpace.Has(c)
    requires rest == LStrip(tail, DashOrSpace)
    requires LStrip(tail + (run + b), DashOrSpace) == rest + (run + b)
    requires Collapse(rest + run + b) == Collapse(rest) + "-" + Collapse(b)
    ensures Collapse([c] + tail + run + b) == Collapse([c] + tail) + "-" + Collapse(b)
  {
    // Both sides start with the hyphen that `c` opens.
    Regroup([c], tail, run, b);
    CollapseCons(c, tail + (run + b));
    Regroup3(rest, run, b);
    CollapseCons(c, tail);
    Regroup("-", Collapse(rest), "-", Collapse(b));
  }

  /** Stripping hyphens and whitespace from text that ends in neither leaves
      a shorter, non-empty text with the same last character. */
  lemma {:induction false} StripStopsBefore(t: string)
    requires t != [] && !DashOrSpace.Has(t[|t| - 1])
    ensures var rest := LStrip(t, DashOrSpace);
            rest != [] && rest[|rest| - 1] == t[|t| - 1]
  {
    LStripShape(t, DashOrSpace);
  }

  /** Every character that survives the substitutions is a slug character:
      the only hyphens are those the collapse writes, and the rest are
      lower-case letters, digits and underscores. */
  lemma CollapsedChars(value: string)
    ensures SlugChars(Collapse(Filter(AsciiLower(AsciiFold(value)), Kept)))
  {
    var kept := Filter(AsciiLower(AsciiFold(value)), Kept);
    var collapsed := Collapse(kept);
    CollapseKeepsContent(kept);
    FilterMembers(AsciiLower(AsciiFold(value)), Kept);
    FilterMembers(kept, NotDashOrSpace);
    forall k | 0 <= k < |collapsed|
      ensures IsSlugChar(collapsed[k])
    {
      var c := collapsed[k];
      if c != '-' {
        FilterKeeps(collapsed, NotHyphen, c);
        assert c in kept && !DashOrSpace.Has(c);
      }
    }
  }

  /** A slice of a string of slug characters with no doubled hyphen is one too. */
  lemma SliceShape(s: string, i: nat, j: nat)
    requires i <= j <= |s|
    requires SlugChars(s) && NoDoubleHyphen(s)
    ensures SlugChars(s[i..j]) && NoDoubleHyphen(s[i..j])
  {
    var t := s[i..j];
    forall a, b | 0 <= a < b < |t| && b == a + 1
      ensures !(t[a] == '-' && t[b] == '-')
    {
      assert t[a] == s[i + a] && t[b] == s[i + b];
    }
  }

  /** Stripping `-` and `_` from both ends of a string of slug characters
      with no doubled hyphen leaves a slug. */
  lemma StripEdgesIsSlug(s: string)
    requires SlugChars(s) && NoDoubleHyphen(s)
    ensures IsSlug(Strip(s, Edge))
  {
    var l := LStrip(s, Edge);
    LStripShape(s, Edge);
    RStripShape(l, Edge);
    assert l == s[|s| - |l|..];
    SliceShape(s, |s| - |l|, |s|);
    SliceShape(l, 0, |RStrip(l, Edge)|);
  }

  /** `slugify(value)`. Its result is always a slug, never longer than the input. */
  function Slugify(value: string): (r: string)
    ensures IsSlug(r)
    ensures |r| <= |value|
  {
    var folded := AsciiLower(AsciiFold(value));
    var kept := Filter(folded, Kept);
    var collapsed := Collapse(kept);
    CollapsedChars(value);
    StripEdgesIsSlug(collapsed);
    Strip(collapsed, Edge)
  }

  /** Collapsing a string with no whitespace and no doubled hyphen changes nothing. */
  lemma {:induction false} CollapseFixed(t: string)
    requires forall k :: 0 <= k < |t| ==> !IsSpace(t[k])
    requires NoDoubleHyphen(t)
    ensures Collapse(t) == t
  {
    if t != [] {
      var rest := t[1..];
      assert NoDoubleHyphen(rest) by {
        forall j, k | 0 <= j < k < |rest| && k == j + 1
          ensures !(rest[j] == '-' && rest[k] == '-')
        {
          assert rest[j] == t[j + 1] && rest[k] == t[k + 1];
        }
      }
      CollapseFixed(rest);
      if t[0] == '-' {
        assert rest != [] ==> !DashOrSpace.Has(rest[0]);
        assert |LStrip(rest, DashOrSpace)| == |rest|;
        assert LStrip(rest, DashOrSpace) == rest;
      }
    }
  }

  /** The fold, the lower-casing and the character removal leave a string of
      slug characters alone. */
  lemma PrefilterFixed(t: string)
    requires SlugChars(t)
    ensures Filter(AsciiLower(AsciiFold(t)), Kept) == t
  {
    FilterAll(t, Ascii);
    assert AsciiLower(t) == t;
    FilterAll(t, Kept);
  }

  /** `slugify` is idempotent: a slug is its own slug. */
  lemma SlugifyIdempotent(value: string)
    ensures Slugify(Slugify(value)) == Slugify(value)
  {
    var t := Slugify(value);
    PrefilterFixed(t);
    CollapseFixed(t);
    assert LStrip(t, Edge) == t;
    assert RStrip(t, Edge) == t;
  }

  /** `slugify` keeps every ASCII letter and digit of its input, lower-cased
      and in order, and brings in no other letter or digit. */
  lemma SlugifyKeepsAlnum(value: string)
    ensures Filter(Slugify(value), AsciiAlnum) == Filter(AsciiLower(AsciiFold(value)), AsciiAlnum)
  {
    var folded := AsciiLower(AsciiFold(value));
    var kept := Filter(folded, Kept);
    var collapsed := Collapse(kept);
    FilterFilter(folded, Kept, AsciiAlnum);
    CollapseKeepsContent(kept);
    FilterFilter(collapsed, NotHyphen, AsciiAlnum);
    FilterFilter(kept, NotDashOrSpace, AsciiAlnum);
    StripFilter(collapsed, Edge, AsciiAlnum);
  }
}
