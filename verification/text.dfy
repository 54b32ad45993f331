/** The handful of Python string operations the scripts rely on, over
    `string` (a sequence of Unicode code points): `endswith`, the `in`
    substring test, `split` and `join` on one separator, `strip()`, decimal
    formatting of an `int`, and the POSIX `os.path.join` / `os.path.basename`. */
module Text {

  /** The path separator; the model fixes it to the POSIX one. */
  const Sep: char := '/'

  predicate IsPrefix(p: string, s: string) {
    |p| <= |s| && s[..|p|] == p
  }

  /** Python `s.endswith(suffix)`. */
  predicate EndsWith(s: string, suffix: string) {
    |suffix| <= |s| && s[|s| - |suffix|..] == suffix
  }

  /** `sub` occurs in `s` starting at index `i`. */
  predicate OccursAt(s: string, sub: string, i: int) {
    0 <= i && i + |sub| <= |s| && s[i..i + |sub|] == sub
  }

  /** Python `sub in s`: the empty string is contained in every string. */
  predicate Contains(s: string, sub: string)
    decreases |s|
  {
    IsPrefix(sub, s) || (|s| > 0 && Contains(s[1..], sub))
  }

  /** `Contains` agrees with the reference definition "there is a position
      where `sub` starts". */
  lemma {:induction false} ContainsIffOccurs(s: string, sub: string)
    ensures Contains(s, sub) <==> exists i :: OccursAt(s, sub, i)
    decreases |s|
  {
    if IsPrefix(sub, s) {
      assert OccursAt(s, sub, 0);
    } else if |s| == 0 {
      assert forall i :: 0 <= i ==> !OccursAt(s, sub, i);
    } else {
      ContainsIffOccurs(s[1..], sub);
      if Contains(s[1..], sub) {
        var i :| OccursAt(s[1..], sub, i);
        assert s[1..][i..i + |sub|] == s[i + 1..i + 1 + |sub|];
        assert OccursAt(s, sub, i + 1);
      } else {
        forall i | 0 <= i ensures !OccursAt(s, sub, i) {
          if i > 0 {
            assert !OccursAt(s[1..], sub, i - 1);
            if i + |sub| <= |s| {
              assert s[1..][i - 1..i - 1 + |sub|] == s[i..i + |sub|];
            }
          }
        }
      }
    }
  }

  /** A string missing one of `sub`'s characters does not contain `sub`. */
  lemma {:induction false} MissingCharNotContained(s: string, sub: string, c: char)
    requires c in sub && c !in s
    ensures !Contains(s, sub)
    decreases |s|
  {
    if |s| > 0 {
      MissingCharNotContained(s[1..], sub, c);
    }
  }

  /** Python `sep.join(parts)` for a one-character separator. */
  function Join(parts: seq<string>, sep: char): string
  {
    if |parts| == 0 then ""
    else if |parts| == 1 then parts[0]
    else parts[0] + [sep] + Join(parts[1..], sep)
  }

  /** A join starts with the first part's first character and ends with the
      last part's last character. */
  lemma {:induction false} JoinEnds(parts: seq<string>, sep: char)
    requires |parts| >= 1
    requires forall i :: 0 <= i < |parts| ==> |parts[i]| > 0
    ensures var j := Join(parts, sep);
            |j| > 0 && j[0] == parts[0][0] && j[|j| - 1] == parts[|parts| - 1][|parts[|parts| - 1]| - 1]
    decreases |parts|
  {
    if |parts| > 1 {
      JoinEnds(parts[1..], sep);
    }
  }

  /** Python `s.split(sep)` for a one-character separator: every occurrence
      of `sep` separates two (possibly empty) pieces, so the result is never
      empty and joining it back gives `s`. */
  function Split(s: string, sep: char): (r: seq<string>)
    ensures |r| >= 1
    ensures forall i :: 0 <= i < |r| ==> sep !in r[i]
    ensures Join(r, sep) == s
    decreases |s|
  {
    if |s| == 0 then [""]
    else
      var rest := Split(s[1..], sep);
      if s[0] == sep then
        assert s == [sep] + s[1..];
        [""] + rest
      else
        assert s == [s[0]] + s[1..];
        [[s[0]] + rest[0]] + rest[1..]
  }

  lemma {:induction false} SplitWithoutSep(w: string, sep: char)
    requires sep !in w
    ensures Split(w, sep) == [w]
    decreases |w|
  {
    if |w| > 0 {
      SplitWithoutSep(w[1..], sep);
      assert [w[0]] + w[1..] == w;
    }
  }

  lemma {:induction false} SplitAtFirstSep(w: string, sep: char, t: string)
    requires sep !in w
    ensures Split(w + [sep] + t, sep) == [w] + Split(t, sep)
    decreases |w|
  {
    var s := w + [sep] + t;
    if |w| == 0 {
      assert s[1..] == t;
    } else {
      assert s[1..] == w[1..] + [sep] + t;
      SplitAtFirstSep(w[1..], sep, t);
      assert [w[0]] + w[1..] == w;
    }
  }

  /** Splitting a join gives the parts back, provided no part contains the
      separator. */
  lemma {:induction false} SplitJoin(parts: seq<string>, sep: char)
    requires |parts| >= 1
    requires forall i :: 0 <= i < |parts| ==> sep !in parts[i]
    ensures Split(Join(parts, sep), sep) == parts
    decreases |parts|
  {
    if |parts| == 1 {
      SplitWithoutSep(parts[0], sep);
    } else {
      SplitJoin(parts[1..], sep);
      SplitAtFirstSep(parts[0], sep, Join(parts[1..], sep));
      assert [parts[0]] + parts[1..] == parts;
    }
  }

  /** The first piece of a split is a prefix of the split string. */
  lemma {:induction false} FirstPieceIsPrefix(s: string, sep: char)
    ensures IsPrefix(Split(s, sep)[0], s)
    decreases |s|
  {
    if |s| > 0 && s[0] != sep {
      FirstPieceIsPrefix(s[1..], sep);
    }
  }

  /** Every piece of a split occurs in the split string: an exact segment
      match implies a substring match (never the other way round in general). */
  lemma {:induction false} PieceIsSubstring(s: string, sep: char, piece: string)
    requires piece in Split(s, sep)
    ensures Contains(s, piece)
    decreases |s|
  {
    if |s| == 0 {
      assert piece == "";
      assert IsPrefix(piece, s);
    } else {
      var rest := Split(s[1..], sep);
      if s[0] == sep {
        if piece == "" {
          assert IsPrefix(piece, s);
        } else {
          PieceIsSubstring(s[1..], sep, piece);
        }
      } else if piece == [s[0]] + rest[0] {
        FirstPieceIsPrefix(s[1..], sep);
        assert s == [s[0]] + s[1..];
        assert s[..|piece|] == [s[0]] + s[1..][..|rest[0]|];
        assert IsPrefix(piece, s);
      } else {
        assert piece in rest;
        PieceIsSubstring(s[1..], sep, piece);
      }
    }
  }

  /** Python `str.isspace()` for one character: the ASCII whitespace and
      separator controls, NEL, NBSP and the Unicode space separators. */
  predicate IsSpace(c: char) {
    var n := c as int;
    (9 <= n <= 13) || (28 <= n <= 32) || n == 0x85 || n == 0xA0 || n == 0x1680
    || (0x2000 <= n <= 0x200A) || n == 0x2028 || n == 0x2029 || n == 0x202F
    || n == 0x205F || n == 0x3000
  }

  predicate AllSpace(s: string) {
    forall i :: 0 <= i < |s| ==> IsSpace(s[i])
  }

  /** `r` occurs in `s` at `a` with only whitespace before and after it. */
  predicate PaddedAt(s: string, r: string, a: int) {
    OccursAt(s, r, a) && AllSpace(s[..a]) && AllSpace(s[a + |r|..])
  }

  /** Python `s.lstrip()`: the suffix left after the leading whitespace. */
  function StripLeft(s: string): (r: string)
    ensures |r| <= |s| && r == s[|s| - |r|..]
    ensures forall i :: 0 <= i < |s| - |r| ==> IsSpace(s[i])
    ensures |r| > 0 ==> !IsSpace(r[0])
    decreases |s|
  {
    if |s| > 0 && IsSpace(s[0]) then StripLeft(s[1..]) else s
  }

  /** Python `s.rstrip()`: the prefix left before the trailing whitespace. */
  function StripRight(s: string): (r: string)
    ensures |r| <= |s| && r == s[..|r|]
    ensures forall i :: |r| <= i < |s| ==> IsSpace(s[i])
    ensures |r| > 0 ==> !IsSpace(r[|r| - 1])
    decreases |s|
  {
    if |s| > 0 && IsSpace(s[|s| - 1]) then StripRight(s[..|s| - 1]) else s
  }

  /** Python `s.strip()`: `s` is the result with whitespace-only padding on
      both sides, and the result neither starts nor ends with whitespace. */
  function Strip(s: string): (r: string)
    ensures |r| > 0 ==> !IsSpace(r[0]) && !IsSpace(r[|r| - 1])
    ensures exists a :: PaddedAt(s, r, a)
  {
    StripBothSides(s);
    StripRight(StripLeft(s))
  }

  lemma StripBothSides(s: string)
    ensures var r := StripRight(StripLeft(s));
            && (|r| > 0 ==> !IsSpace(r[0]) && !IsSpace(r[|r| - 1]))
            && exists a :: PaddedAt(s, r, a)
  {
    var left := StripLeft(s);
    var r := StripRight(left);
    var a := |s| - |left|;
    assert s[a..a + |r|] == r;
    assert AllSpace(s[..a]) by {
      forall i | 0 <= i < a ensures IsSpace(s[..a][i]) {
        assert s[..a][i] == s[i];
      }
    }
    var after := s[a + |r|..];
    assert AllSpace(after) by {
      forall i | 0 <= i < |after| ensures IsSpace(after[i]) {
        assert after[i] == left[|r| + i];
      }
    }
    assert PaddedAt(s, r, a);
    assert |r| > 0 ==> r[0] == left[0];
  }

  /** A string that already has no surrounding whitespace is left unchanged. */
  lemma StripTrimmed(s: string)
    requires |s| > 0 ==> !IsSpace(s[0]) && !IsSpace(s[|s| - 1])
    ensures Strip(s) == s
  {
  }

  lemma {:induction false} StripRightPadding(s: string, w: string)
    requires |s| > 0 && !IsSpace(s[|s| - 1])
    requires AllSpace(w)
    ensures StripRight(s + w) == s
    decreases |w|
  {
    if |w| == 0 {
      assert s + w == s;
    } else {
      assert (s + w)[..|s + w| - 1] == s + w[..|w| - 1];
      StripRightPadding(s, w[..|w| - 1]);
    }
  }

  /** Trailing whitespace after a trimmed string is all that `strip` removes. */
  lemma StripPadded(s: string, w: string)
    requires |s| > 0 ==> !IsSpace(s[0]) && !IsSpace(s[|s| - 1])
    requires AllSpace(w)
    ensures Strip(s + w) == s
  {
    if |s| > 0 {
      assert StripLeft(s + w) == s + w;
      StripRightPadding(s, w);
    } else {
      assert s + w == w;
      StripAllSpace(w);
    }
  }

  lemma {:induction false} StripAllSpace(w: string)
    requires AllSpace(w)
    ensures Strip(w) == ""
    decreases |w|
  {
    if |w| > 0 {
      StripAllSpace(w[1..]);
    }
  }

  /** POSIX `os.path.join(a, b)` for two components: an absolute `b` replaces
      `a`; otherwise a separator is inserted unless `a` is empty or already
      ends with one. */
  function PathJoin(a: string, b: string): (r: string)
    ensures EndsWith(r, b)
    ensures IsPrefix([Sep], b) ==> r == b
    ensures !IsPrefix([Sep], b) ==> (r == a + b || r == a + [Sep] + b)
    ensures !IsPrefix([Sep], b) ==> (r == a + b <==> |a| == 0 || EndsWith(a, [Sep]))
  {
    if IsPrefix([Sep], b) then b
    else if |a| == 0 || EndsWith(a, [Sep]) then a + b
    else a + [Sep] + b
  }

  /** POSIX `os.path.basename(p)`: everything after the last separator, that
      is the longest suffix of `p` without a separator. */
  function Basename(p: string): (r: string)
    ensures Sep !in r
    ensures EndsWith(p, r)
    ensures |r| < |p| ==> p[|p| - |r| - 1] == Sep
    decreases |p|
  {
    if |p| == 0 || p[|p| - 1] == Sep then ""
    else
      var r := Basename(p[..|p| - 1]) + [p[|p| - 1]];
      assert p == p[..|p| - 1] + [p[|p| - 1]];
      r
  }

  /** A plain name after a directory prefix that is empty or ends with a
      separator is the base name. */
  lemma {:induction false} BasenameAfterDir(q: string, name: string)
    requires |q| == 0 || EndsWith(q, [Sep])
    requires Sep !in name
    ensures Basename(q + name) == name
    decreases |name|
  {
    var p := q + name;
    if |name| == 0 {
      assert p == q;
      if |q| > 0 {
        assert q[|q| - 1..] == [Sep];
      }
    } else {
      assert p[|p| - 1] == name[|name| - 1];
      assert p[..|p| - 1] == q + name[..|name| - 1];
      BasenameAfterDir(q, name[..|name| - 1]);
      assert name[..|name| - 1] + [name[|name| - 1]] == name;
    }
  }

  /** The base name of a joined path is the name that was joined on, when
      that name is a plain file name. */
  lemma BasenameOfJoin(a: string, name: string)
    requires |name| > 0 && Sep !in name
    ensures Basename(PathJoin(a, name)) == name
  {
    assert name[..1] == [name[0]];
    assert !IsPrefix([Sep], name);
    if |a| == 0 || EndsWith(a, [Sep]) {
      BasenameAfterDir(a, name);
    } else {
      var q := a + [Sep];
      assert q[|q| - 1..] == [Sep];
      BasenameAfterDir(q, name);
    }
  }

  function DigitChar(d: nat): char
    requires d < 10
  {
    ('0' as int + d) as char
  }

  predicate IsDigit(c: char) {
    '0' <= c <= '9'
  }

  /** Python `str(n)` (and `f"{n}"`) for a non-negative integer: decimal
      digits, with no leading zero unless the number is 0. */
  function NatToString(n: nat): (r: string)
    ensures |r| >= 1
    ensures forall i :: 0 <= i < |r| ==> IsDigit(r[i])
    ensures r[0] == '0' ==> n == 0
    decreases n
  {
    if n < 10 then [DigitChar(n)]
    else NatToString(n / 10) + [DigitChar(n % 10)]
  }

  /** The value of a string of decimal digits. */
  function ParseDecimal(s: string): nat
    requires forall i :: 0 <= i < |s| ==> IsDigit(s[i])
    decreases |s|
  {
    if |s| == 0 then 0
    else ParseDecimal(s[..|s| - 1]) * 10 + DigitValue(s[|s| - 1])
  }

  function DigitValue(c: char): (d: nat)
    requires IsDigit(c)
    ensures d < 10 && DigitChar(d) == c
  {
    c as int - '0' as int
  }

  /** Reading a formatted count back gives the count. */
  lemma {:induction false} ParseNatToString(n: nat)
    ensures ParseDecimal(NatToString(n)) == n
    decreases n
  {
    if n >= 10 {
      ParseNatToString(n / 10);
      var s := NatToString(n);
      assert s[..|s| - 1] == NatToString(n / 10);
    }
  }
}
