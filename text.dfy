/** The few Python `str` operations the character commands use, over `seq<char>`:
    `split` with an explicit separator, `strip()`, `lower()` and `int()`. */
module Text {

  datatype Option<+T> = None | Some(value: T)

  // ---------------------------------------------------------------- split / join

  /** Python's `s.split(sep)` for a non-empty separator: cuts at the leftmost
      occurrence, then goes on after it, so occurrences never overlap. An empty
      string gives one empty part, as `"".split(",") == [""]`. */
  function Split(s: string, sep: string): (parts: seq<string>)
    requires sep != []
    ensures |parts| >= 1
    decreases |s|
  {
    if |s| < |sep| then [s]
    else if s[..|sep|] == sep then [""] + Split(s[|sep|..], sep)
    else
      var rest := Split(s[1..], sep);
      [[s[0]] + rest[0]] + rest[1..]
  }

  /** Python's `sep.join(parts)`. */
  function Join(parts: seq<string>, sep: string): string
  {
    if parts == [] then ""
    else if |parts| == 1 then parts[0]
    else parts[0] + sep + Join(parts[1..], sep)
  }

  lemma JoinAfterEmpty(parts: seq<string>, sep: string)
    requires |parts| >= 1
    ensures Join([""] + parts, sep) == sep + Join(parts, sep)
  {
    assert ([""] + parts)[1..] == parts;
  }

  lemma JoinAfterChar(c: char, parts: seq<string>, sep: string)
    requires |parts| >= 1
    ensures Join([[c] + parts[0]] + parts[1..], sep) == [c] + Join(parts, sep)
  {
    var longer := [[c] + parts[0]] + parts[1..];
    if |parts| > 1 {
      assert longer[1..] == parts[1..];
    }
  }

  /** Splitting and joining back on the same separator gives the text again:
      `Split` loses nothing and invents nothing. */
  lemma {:induction false} SplitJoin(s: string, sep: string)
    requires sep != []
    ensures Join(Split(s, sep), sep) == s
    decreases |s|
  {
    if |s| < |sep| {
    } else if s[..|sep|] == sep {
      SplitJoin(s[|sep|..], sep);
      JoinAfterEmpty(Split(s[|sep|..], sep), sep);
      assert s == sep + s[|sep|..];
    } else {
      SplitJoin(s[1..], sep);
      JoinAfterChar(s[0], Split(s[1..], sep), sep);
      assert s == [s[0]] + s[1..];
    }
  }

  /** Text without the separator's first character is one part. */
  lemma {:induction false} SplitWithout(s: string, sep: string)
    requires sep != []
    requires forall k :: 0 <= k < |s| ==> s[k] != sep[0]
    ensures Split(s, sep) == [s]
    decreases |s|
  {
    if |s| >= |sep| {
      assert s[..|sep|][0] == s[0];
      SplitWithout(s[1..], sep);
      assert [s[0]] + s[1..] == s;
    }
  }

  /** `sep` occurs in `t` starting at index `k`. */
  predicate At(t: string, k: int, sep: string)
  {
    0 <= k && k + |sep| <= |t| && t[k..k + |sep|] == sep
  }

  /** The first cut falls at the first occurrence of the separator: when no
      occurrence starts inside `a`, `a` is the first part and the rest is
      the split of what follows the separator. */
  lemma {:induction false} SplitAtFirstOccurrence(a: string, sep: string, b: string)
    requires sep != []
    requires forall k :: 0 <= k < |a| ==> !At(a + sep + b, k, sep)
    ensures Split(a + sep + b, sep) == [a] + Split(b, sep)
    decreases |a|
  {
    var t := a + sep + b;
    if a == [] {
      assert t[..|sep|] == sep;
      assert t[|sep|..] == b;
    } else {
      assert !At(t, 0, sep);
      assert t[..|sep|] == t[0..|sep|];
      var u := a[1..] + sep + b;
      assert t[1..] == u;
      forall k | 0 <= k < |a[1..]|
        ensures !At(u, k, sep)
      {
        assert !At(t, k + 1, sep);
        assert k + |sep| <= |u| ==> u[k..k + |sep|] == t[k + 1..k + 1 + |sep|];
      }
      SplitAtFirstOccurrence(a[1..], sep, b);
      assert [a[0]] + a[1..] == a;
    }
  }

  /** In particular the first cut falls after `a` when `a` holds no
      character equal to the separator's first. */
  lemma SplitAtFirst(a: string, sep: string, b: string)
    requires sep != []
    requires forall k :: 0 <= k < |a| ==> a[k] != sep[0]
    ensures Split(a + sep + b, sep) == [a] + Split(b, sep)
  {
    var t := a + sep + b;
    forall k | 0 <= k < |a|
      ensures !At(t, k, sep)
    {
      assert k + |sep| <= |t| ==> t[k..k + |sep|][0] == a[k];
    }
    SplitAtFirstOccurrence(a, sep, b);
  }

  /** With a one-character separator, no part contains that character. */
  lemma {:induction false} SplitPartsLackSeparator(s: string, c: char)
    ensures forall p :: p in Split(s, [c]) ==> c !in p
    decreases |s|
  {
    if |s| < 1 {
    } else if s[..1] == [c] {
      SplitPartsLackSeparator(s[1..], c);
    } else {
      SplitPartsLackSeparator(s[1..], c);
      var rest := Split(s[1..], [c]);
      assert s[0] != c by { assert s[..1] == [s[0]]; }
      assert c !in rest[0];
      forall p | p in Split(s, [c]) ensures c !in p {
        if p != [s[0]] + rest[0] {
          assert p in rest[1..];
        }
      }
    }
  }

  /** The number of places where `sep` occurs in `s`, overlapping ones included. */
  function Count(s: string, sep: string): nat
    requires sep != []
    decreases |s|
  {
    if |s| < |sep| then 0
    else (if s[..|sep|] == sep then 1 else 0) + Count(s[1..], sep)
  }

  /** A text counting no occurrence has none starting anywhere. */
  lemma {:induction false} CountZeroNoAt(s: string, sep: string)
    requires sep != [] && Count(s, sep) == 0
    ensures forall k :: !At(s, k, sep)
    decreases |s|
  {
    if |s| >= |sep| {
      CountZeroNoAt(s[1..], sep);
      assert s[..|sep|] == s[0..|sep|];
      forall k | 1 <= k
        ensures !At(s, k, sep)
      {
        assert !At(s[1..], k - 1, sep);
        assert k + |sep| <= |s| ==> s[1..][k - 1..k - 1 + |sep|] == s[k..k + |sep|];
      }
    }
  }

  /** A text without the separator's first character counts no occurrence. */
  lemma {:induction false} CountWithoutFirst(s: string, sep: string)
    requires sep != []
    requires forall k :: 0 <= k < |s| ==> s[k] != sep[0]
    ensures Count(s, sep) == 0
    decreases |s|
  {
    if |s| >= |sep| {
      assert s[..|sep|][0] == s[0];
      CountWithoutFirst(s[1..], sep);
    }
  }

  /** `": "` cannot overlap itself, so splitting on it gives one part more than
      it has occurrences: `key, value = seg.split(": ")` succeeds exactly when
      `seg` holds `": "` once. */
  lemma {:induction false} SplitColonSpaceParts(s: string)
    ensures |Split(s, ": ")| == Count(s, ": ") + 1
    decreases |s|
  {
    if |s| < 2 {
    } else if s[..2] == ": " {
      SplitColonSpaceParts(s[2..]);
      assert s[1] == ' ';
      assert s[1..][0] == ' ';
      assert s[1..][1..] == s[2..];
      assert Count(s[1..], ": ") == Count(s[2..], ": ");
    } else {
      SplitColonSpaceParts(s[1..]);
    }
  }

  // ---------------------------------------------------------------- strip

  /** The characters Python's `str.isspace()` accepts. */
  predicate IsSpace(c: char)
  {
    var n := c as int;
    n == 0x20 || 0x09 <= n <= 0x0D || 0x1C <= n <= 0x1F || n == 0x85 || n == 0xA0
    || n == 0x1680 || 0x2000 <= n <= 0x200A || n == 0x2028 || n == 0x2029
    || n == 0x202F || n == 0x205F || n == 0x3000
  }

  predicate AllSpace(s: string)
  {
    forall k :: 0 <= k < |s| ==> IsSpace(s[k])
  }

  /** How many whitespace characters `s` starts with. */
  function Leading(s: string): (n: nat)
    ensures n <= |s|
  {
    if s != [] && IsSpace(s[0]) then 1 + Leading(s[1..]) else 0
  }

  /** How many whitespace characters `s` ends with. */
  function Trailing(s: string): (n: nat)
    ensures n <= |s|
  {
    if s != [] && IsSpace(s[|s| - 1]) then 1 + Trailing(s[..|s| - 1]) else 0
  }

  /** Python's `s.strip()`: the slice of `s` left once the whitespace at both ends is gone. */
  function Strip(s: string): string
  {
    var i := Leading(s);
    s[i..|s| - Trailing(s[i..])]
  }

  lemma {:induction false} LeadingSpec(s: string)
    ensures AllSpace(s[..Leading(s)])
    ensures Leading(s) < |s| ==> !IsSpace(s[Leading(s)])
  {
    if s != [] && IsSpace(s[0]) {
      LeadingSpec(s[1..]);
      assert s[..Leading(s)] == [s[0]] + s[1..][..Leading(s[1..])];
    }
  }

  lemma {:induction false} TrailingSpec(s: string)
    ensures AllSpace(s[|s| - Trailing(s)..])
    ensures Trailing(s) < |s| ==> !IsSpace(s[|s| - Trailing(s) - 1])
  {
    if s != [] && IsSpace(s[|s| - 1]) {
      var init := s[..|s| - 1];
      TrailingSpec(init);
      assert s[|s| - Trailing(s)..] == init[|init| - Trailing(init)..] + [s[|s| - 1]];
    }
  }

  /** `Strip` gives a slice of its input whose cut-off ends are all whitespace
      and which neither starts nor ends with whitespace, which pins it down. */
  lemma StripShape(s: string)
    ensures exists i, j :: 0 <= i <= j <= |s| && Strip(s) == s[i..j] && AllSpace(s[..i]) && AllSpace(s[j..])
    ensures Strip(s) == [] || (!IsSpace(Strip(s)[0]) && !IsSpace(Strip(s)[|Strip(s)| - 1]))
  {
    var i := Leading(s);
    var rest := s[i..];
    var j := |s| - Trailing(rest);
    LeadingSpec(s);
    TrailingSpec(rest);
    assert s[j..] == rest[|rest| - Trailing(rest)..];
    assert Strip(s) == s[i..j];
    if i < j {
      assert Strip(s)[0] == s[i];
      assert Strip(s)[|Strip(s)| - 1] == rest[|rest| - Trailing(rest) - 1];
    }
  }

  /** Text that neither starts nor ends with whitespace is its own strip. */
  lemma StripUntrimmed(s: string)
    requires s == [] || (!IsSpace(s[0]) && !IsSpace(s[|s| - 1]))
    ensures Strip(s) == s
  {
    assert Leading(s) == 0;
    assert s[0..] == s;
    assert Trailing(s) == 0;
  }

  // ---------------------------------------------------------------- lower

  /** ASCII lower-casing of one character. */
  function LowerChar(c: char): char
  {
    if 'A' <= c <= 'Z' then (c as int - 'A' as int + 'a' as int) as char else c
  }

  /** `s.lower()`, restricted to the ASCII letters. */
  function Lower(s: string): (r: string)
    ensures |r| == |s| && forall k :: 0 <= k < |s| ==> r[k] == LowerChar(s[k])
  {
    seq(|s|, k requires 0 <= k < |s| => LowerChar(s[k]))
  }

  /** The capital of a lower-case ASCII letter. */
  function UpperChar(c: char): char
    requires 'a' <= c <= 'z'
  {
    (c as int - 'a' as int + 'A' as int) as char
  }

  lemma LowerCharMatches(c: char, l: char)
    requires 'a' <= l <= 'z'
    ensures LowerChar(c) == l <==> c == l || c == UpperChar(l)
  {
  }

  /** `s.lower() == w`, for a word `w` of lower-case ASCII letters, holds
      exactly when `s` spells `w` letter by letter, each letter in either
      case, with nothing before or after it. */
  lemma LowerMatches(s: string, w: string)
    requires forall k :: 0 <= k < |w| ==> 'a' <= w[k] <= 'z'
    ensures Lower(s) == w <==> |s| == |w| && forall k :: 0 <= k < |s| ==> s[k] == w[k] || s[k] == UpperChar(w[k])
  {
    if |s| == |w| {
      forall k | 0 <= k < |s|
        ensures LowerChar(s[k]) == w[k] <==> s[k] == w[k] || s[k] == UpperChar(w[k])
      {
        LowerCharMatches(s[k], w[k]);
      }
    }
  }

  // ---------------------------------------------------------------- int()

  predicate IsDigit(c: char)
  {
    '0' <= c <= '9'
  }

  /** One or more ASCII digits. */
  predicate IsNumeral(d: string)
  {
    d != [] && forall k :: 0 <= k < |d| ==> IsDigit(d[k])
  }

  /** The value of a string of decimal digits, most significant first. */
  function DigitsValue(d: string): nat
    requires forall k :: 0 <= k < |d| ==> IsDigit(d[k])
  {
    if d == [] then 0
    else
      var last := d[|d| - 1];
      assert IsDigit(last);
      10 * DigitsValue(d[..|d| - 1]) + (last as int - '0' as int)
  }

  /** Python's `int(s)` on a decimal numeral: surrounding whitespace is ignored,
      one optional `+` or `-` sign, then at least one digit. `None` stands for
      the `ValueError` it raises on anything else. */
  function ParseInt(s: string): Option<int>
  {
    var t := Strip(s);
    if t != [] && (t[0] == '+' || t[0] == '-') then
      if IsNumeral(t[1..]) then
        var v: int := DigitsValue(t[1..]);
        Some(if t[0] == '-' then -v else v)
      else None
    else if IsNumeral(t) then Some(DigitsValue(t))
    else None
  }

  /** `str(n)` for a natural number. */
  function ShowNat(n: nat): (d: string)
    decreases n
  {
    if n < 10 then [('0' as int + n) as char]
    else ShowNat(n / 10) + [('0' as int + n % 10) as char]
  }

  /** `str(n)`. */
  function ShowInt(n: int): string
  {
    if n < 0 then "-" + ShowNat(-n) else ShowNat(n)
  }

  lemma {:induction false} ShowNatDigits(n: nat)
    ensures IsNumeral(ShowNat(n)) && DigitsValue(ShowNat(n)) == n
    decreases n
  {
    if n >= 10 {
      ShowNatDigits(n / 10);
      var d := ShowNat(n);
      assert d[..|d| - 1] == ShowNat(n / 10);
    }
  }

  /** `int(str(n)) == n`: every integer the bot prints reads back as itself. */
  lemma ParseShowInt(n: int)
    ensures ParseInt(ShowInt(n)) == Some(n)
  {
    var s := ShowInt(n);
    if n < 0 {
      ShowNatDigits(-n);
      assert s[1..] == ShowNat(-n);
    } else {
      ShowNatDigits(n);
    }
    StripUntrimmed(s);
  }
}
