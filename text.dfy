/** String helpers shared by the slug, URL and file-name modules: the optional
    value, Python's notion of whitespace, filtering, stripping, the `[:n]` cut,
    `str.replace` and the `%d` rendering of a natural number. */
module Text {

  datatype Option<T> = None | Some(value: T)

  /** Python's `str.isspace()`, which is also what `str.strip()` removes and
      what `\s` matches in a `str` regular expression: tab to carriage return,
      the four information separators 0x1C-0x1F, space, and the Unicode
      separators NEL, NBSP, OGHAM SPACE MARK, EN QUAD..HAIR SPACE, LINE and
      PARAGRAPH SEPARATOR, NNBSP, MMSP and IDEOGRAPHIC SPACE. */
  predicate IsSpace(c: char) {
    var n := c as int;
    (9 <= n <= 13) || (28 <= n <= 32) || n == 0x85 || n == 0xA0 || n == 0x1680
    || (0x2000 <= n <= 0x200A) || n == 0x2028 || n == 0x2029 || n == 0x202F
    || n == 0x205F || n == 0x3000
  }

  predicate IsDigit(c: char) { '0' <= c <= '9' }

  /** The value of a decimal digit. */
  function DigitValue(c: char): (d: nat)
    requires IsDigit(c)
    ensures d < 10
  {
    c as int - '0' as int
  }

  predicate IsAsciiLetter(c: char) { ('a' <= c <= 'z') || ('A' <= c <= 'Z') }

  predicate IsAsciiAlnum(c: char) { IsAsciiLetter(c) || IsDigit(c) }

  /** The character classes that the string helpers below filter, strip and
      search by. */
  datatype CharClass =
    | Whitespace      // `str.isspace()`
    | Ascii           // code points below 128
    | AsciiAlnum      // ASCII letters and digits
    | Kept            // what `re.sub(r'[^\w\s-]', '', s)` keeps of ASCII text
    | DashOrSpace     // the class `[-\s]`
    | NotDashOrSpace
    | NotHyphen
    | Edge            // what `strip('-_')` removes
    | C0OrSpace       // what `urlsplit` strips from the front
    | Safe            // all but tab, carriage return and line feed
    | Colon
    | NetlocEnd       // what ends a URL's network location
  {
    predicate Has(c: char) {
      match this
      case Whitespace => IsSpace(c)
      case Ascii => c as int < 128
      case AsciiAlnum => IsAsciiAlnum(c)
      case Kept => IsAsciiAlnum(c) || c == '_' || IsSpace(c) || c == '-'
      case DashOrSpace => c == '-' || IsSpace(c)
      case NotDashOrSpace => !(c == '-' || IsSpace(c))
      case NotHyphen => c != '-'
      case Edge => c == '-' || c == '_'
      case C0OrSpace => c as int <= 32
      case Safe => c != '\t' && c != '\r' && c != '\n'
      case Colon => c == ':'
      case NetlocEnd => c == '/' || c == '?' || c == '#'
    }
  }

  /** The characters of `s` that satisfy `p`, in order. */
  function Filter(s: string, p: CharClass): (r: string)
    ensures |r| <= |s|
  {
    if s == [] then [] else (if p.Has(s[0]) then [s[0]] else []) + Filter(s[1..], p)
  }

  /** What the filter keeps comes from `s` and passes `p`. */
  lemma {:induction false} FilterMembers(s: string, p: CharClass)
    ensures forall x :: x in Filter(s, p) ==> x in s && p.Has(x)
  {
    if s != [] {
      FilterMembers(s[1..], p);
    }
  }

  /** Every element of `s` that passes `p` survives the filter. */
  lemma {:induction false} FilterKeeps(s: string, p: CharClass, x: char)
    requires x in s && p.Has(x)
    ensures x in Filter(s, p)
  {
    if s[0] != x {
      FilterKeeps(s[1..], p, x);
    }
  }

  lemma {:induction false} FilterAppend(a: string, b: string, p: CharClass)
    ensures Filter(a + b, p) == Filter(a, p) + Filter(b, p)
  {
    if a == [] {
      assert a + b == b;
    } else {
      var head: string := if p.Has(a[0]) then [a[0]] else [];
      assert (a + b)[0] == a[0] && (a + b)[1..] == a[1..] + b;
      FilterAppend(a[1..], b, p);
      assert Filter(a + b, p) == head + (Filter(a[1..], p) + Filter(b, p));
      Regroup3(head, Filter(a[1..], p), Filter(b, p));
    }
  }

  /** Filtering is the identity on a sequence all of whose elements pass. */
  lemma {:induction false} FilterAll(s: string, p: CharClass)
    ensures (forall k :: 0 <= k < |s| ==> p.Has(s[k])) ==> Filter(s, p) == s
  {
    if s != [] {
      FilterAll(s[1..], p);
      if forall k :: 0 <= k < |s| ==> p.Has(s[k]) {
        assert forall k :: 0 <= k < |s[1..]| ==> p.Has(s[1..][k]) by {
          forall k | 0 <= k < |s[1..]| ensures p.Has(s[1..][k]) { assert s[1..][k] == s[k + 1]; }
        }
      }
    }
  }

  /** Filtering by `p` and then by a stronger `q` is filtering by `q`. */
  lemma {:induction false} FilterFilter(s: string, p: CharClass, q: CharClass)
    requires forall x :: q.Has(x) ==> p.Has(x)
    ensures Filter(Filter(s, p), q) == Filter(s, q)
  {
    if s != [] {
      FilterFilter(s[1..], p, q);
      FilterAppend(if p.Has(s[0]) then [s[0]] else [], Filter(s[1..], p), q);
    }
  }

  /** Filtering keeps nothing of a sequence none of whose elements pass. */
  lemma {:induction false} FilterNone(s: string, p: CharClass)
    requires forall k :: 0 <= k < |s| ==> !p.Has(s[k])
    ensures Filter(s, p) == []
  {
    if s != [] {
      FilterNone(s[1..], p);
    }
  }

  /** `s.lstrip(chars)`: drop the leading characters that satisfy `p`. */
  function LStrip(s: string, p: CharClass): (r: string)
    ensures |r| <= |s|
    ensures r == [] || !p.Has(r[0])
  {
    if s != [] && p.Has(s[0]) then LStrip(s[1..], p) else s
  }

  /** `s.lstrip` removes a prefix of characters that all satisfy `p`. */
  lemma {:induction false} LStripShape(s: string, p: CharClass)
    ensures forall k :: 0 <= k < |LStrip(s, p)| ==> LStrip(s, p)[k] == s[|s| - |LStrip(s, p)| + k]
    ensures forall k :: 0 <= k < |s| - |LStrip(s, p)| ==> p.Has(s[k])
  {
    if s != [] && p.Has(s[0]) {
      var r := LStrip(s, p);
      LStripShape(s[1..], p);
      forall k | 0 <= k < |r|
        ensures r[k] == s[|s| - |r| + k]
      {
        assert r[k] == s[1..][|s| - 1 - |r| + k];
      }
    }
  }

  /** Once `a` holds a character that `p` rejects, the strip stops inside it. */
  lemma {:induction false} LStripAppend(a: string, b: string, p: CharClass)
    requires LStrip(a, p) != []
    ensures LStrip(a + b, p) == LStrip(a, p) + b
  {
    if p.Has(a[0]) {
      assert (a + b)[1..] == a[1..] + b;
      LStripAppend(a[1..], b, p);
    }
  }

  /** Stripping a prefix made only of characters that `p` accepts, in front
      of text that does not start with one, leaves that text. */
  lemma {:induction false} LStripRun(run: string, b: string, p: CharClass)
    requires forall k :: 0 <= k < |run| ==> p.Has(run[k])
    requires b == [] || !p.Has(b[0])
    ensures LStrip(run + b, p) == b
  {
    if run == [] {
      assert run + b == b;
    } else {
      assert (run + b)[1..] == run[1..] + b;
      LStripRun(run[1..], b, p);
    }
  }

  /** Concatenation regrouped, for proofs that take strings apart. */
  lemma Regroup<T>(p: seq<T>, x: seq<T>, y: seq<T>, z: seq<T>)
    ensures p + x + y + z == p + (x + (y + z)) == p + (x + y + z)
  {
  }

  lemma Regroup3<T>(x: seq<T>, y: seq<T>, z: seq<T>)
    ensures x + (y + z) == x + y + z
  {
  }

  /** `s.rstrip(chars)`: drop the trailing characters that satisfy `p`. */
  function RStrip(s: string, p: CharClass): (r: string)
    ensures |r| <= |s|
    ensures r == [] || !p.Has(r[|r| - 1])
  {
    if s != [] && p.Has(s[|s| - 1]) then RStrip(s[..|s| - 1], p) else s
  }

  /** `s.rstrip` removes a suffix of characters that all satisfy `p`. */
  lemma {:induction false} RStripShape(s: string, p: CharClass)
    ensures RStrip(s, p) == s[..|RStrip(s, p)|]
    ensures forall k :: |RStrip(s, p)| <= k < |s| ==> p.Has(s[k])
  {
    if s != [] && p.Has(s[|s| - 1]) {
      RStripShape(s[..|s| - 1], p);
    }
  }

  /** `s.strip(chars)`: both ends. */
  function Strip(s: string, p: CharClass): (r: string)
    ensures |r| <= |s|
    ensures r == [] || (!p.Has(r[0]) && !p.Has(r[|r| - 1]))
  {
    RStripShape(LStrip(s, p), p);
    RStrip(LStrip(s, p), p)
  }

  lemma {:induction false} LStripFilter(s: string, p: CharClass, q: CharClass)
    requires forall k :: 0 <= k < |s| && p.Has(s[k]) ==> !q.Has(s[k])
    ensures Filter(LStrip(s, p), q) == Filter(s, q)
  {
    if s != [] && p.Has(s[0]) {
      LStripFilter(s[1..], p, q);
    }
  }

  lemma {:induction false} RStripFilter(s: string, p: CharClass, q: CharClass)
    requires forall k :: 0 <= k < |s| && p.Has(s[k]) ==> !q.Has(s[k])
    ensures Filter(RStrip(s, p), q) == Filter(s, q)
  {
    if s != [] && p.Has(s[|s| - 1]) {
      var init := s[..|s| - 1];
      RStripFilter(init, p, q);
      assert s == init + [s[|s| - 1]];
      FilterAppend(init, [s[|s| - 1]], q);
    }
  }

  /** Stripping characters that `q` rejects does not change what a filter
      by `q` keeps. */
  lemma StripFilter(s: string, p: CharClass, q: CharClass)
    requires forall k :: 0 <= k < |s| && p.Has(s[k]) ==> !q.Has(s[k])
    ensures Filter(Strip(s, p), q) == Filter(s, q)
  {
    LStripFilter(s, p, q);
    LStripShape(s, p);
    RStripFilter(LStrip(s, p), p, q);
  }

  /** The slice `s[:n]`. */
  function Take(s: string, n: nat): (r: string)
    ensures |r| <= n && |r| <= |s|
    ensures r == s[..|r|]
    ensures |s| <= n ==> r == s
  {
    if |s| <= n then s else s[..n]
  }

  /** The text of `s` before the first `c`: `s.split(c)[0]`. */
  function Before(s: string, c: char): (r: string)
    ensures |r| <= |s| && r == s[..|r|]
    ensures c !in r
    ensures |r| < |s| ==> s[|r|] == c
  {
    if s == [] || s[0] == c then [] else [s[0]] + Before(s[1..], c)
  }

  /** `s.replace(pat, rep)`: every non-overlapping occurrence of `pat`,
      scanned from the left, is replaced by `rep`. */
  function Replace(s: string, pat: string, rep: string): string
    requires pat != []
    decreases |s|
  {
    if |pat| <= |s| && s[..|pat|] == pat then rep + Replace(s[|pat|..], pat, rep)
    else if s == [] then []
    else [s[0]] + Replace(s[1..], pat, rep)
  }

  /** Replacing a pattern whose first character never occurs in `a` leaves
      the prefix `a` alone. */
  lemma {:induction false} ReplaceSkipsPrefix(a: string, b: string, pat: string, rep: string)
    requires pat != [] && pat[0] !in a
    ensures Replace(a + b, pat, rep) == a + Replace(b, pat, rep)
  {
    if a != [] {
      assert (a + b)[0] == a[0] != pat[0];
      assert (a + b)[1..] == a[1..] + b;
      ReplaceSkipsPrefix(a[1..], b, pat, rep);
    } else {
      assert a + b == b;
    }
  }

  /** A string not holding the first character of the pattern is unchanged. */
  lemma {:induction false} ReplaceAbsent(s: string, pat: string, rep: string)
    requires pat != [] && pat[0] !in s
    ensures Replace(s, pat, rep) == s
  {
    ReplaceSkipsPrefix(s, [], pat, rep);
    assert s + [] == s;
  }

  function DigitChar(d: nat): (c: char)
    requires d < 10
    ensures IsDigit(c) && DigitValue(c) == d
  {
    (d + '0' as int) as char
  }

  /** `"%d" % n` for a natural number: decimal digits, with no leading zero
      unless the number is 0. */
  function NatToString(n: nat): (r: string)
    ensures r != []
    ensures r[0] == '0' ==> n == 0
  {
    if n < 10 then [DigitChar(n)] else NatToString(n / 10) + [DigitChar(n % 10)]
  }

  ghost predicate AllDigits(s: string) {
    forall k :: 0 <= k < |s| ==> IsDigit(s[k])
  }

  /** The value of a string of decimal digits, read most significant first. */
  function ParseDigits(s: string): nat
    requires AllDigits(s)
  {
    if s == [] then 0
    else 10 * ParseDigits(s[..|s| - 1]) + DigitValue(s[|s| - 1])
  }

  /** Rendering a number gives only digits, and reading them back gives the
      number. */
  lemma {:induction false} NatToStringRoundTrip(n: nat)
    ensures AllDigits(NatToString(n)) && ParseDigits(NatToString(n)) == n
  {
    var r := NatToString(n);
    if n >= 10 {
      NatToStringRoundTrip(n / 10);
      assert r[..|r| - 1] == NatToString(n / 10);
    }
  }

  /** Distinct numbers render as distinct strings. */
  lemma NatToStringInjective(m: nat, n: nat)
    requires NatToString(m) == NatToString(n)
    ensures m == n
  {
    NatToStringRoundTrip(m);
    NatToStringRoundTrip(n);
  }
}
