/** The parts of java.lang.String and java.lang.Integer the configuration and
    the ordering engines rely on, written out over `seq<char>`. */
module JavaStrings {
  import opened Wrappers

  // ---------------------------------------------------------------------------
  // String.trim
  // ---------------------------------------------------------------------------

  /** `String.trim` removes every leading and trailing character whose code is at
      most U+0020 (space and all control characters). */
  predicate Blank(c: char)
  {
    c <= ' '
  }

  predicate AllBlank(s: string)
  {
    forall i :: 0 <= i < |s| ==> Blank(s[i])
  }

  /** Leading blanks removed. Its shape is stated by `TrimStartShape` rather
      than by postconditions, which would follow every id comparison around. */
  function TrimStart(s: string): string
  {
    if s != [] && Blank(s[0]) then TrimStart(s[1..]) else s
  }

  /** Trailing blanks removed; see `TrimEndShape`. */
  function TrimEnd(s: string): string
  {
    if s != [] && Blank(s[|s| - 1]) then TrimEnd(s[..|s| - 1]) else s
  }

  /** TrimStart keeps a suffix, drops only blanks, and starts with a non-blank. */
  lemma {:induction false} TrimStartShape(s: string)
    ensures |TrimStart(s)| <= |s| && TrimStart(s) == s[|s| - |TrimStart(s)|..]
    ensures AllBlank(s[..|s| - |TrimStart(s)|])
    ensures TrimStart(s) != [] ==> !Blank(TrimStart(s)[0])
  {
    if s != [] && Blank(s[0]) {
      TrimStartShape(s[1..]);
      var r := TrimStart(s);
      assert s[..|s| - |r|] == [s[0]] + s[1..][..|s| - 1 - |r|];
    }
  }

  /** TrimEnd keeps a prefix, drops only blanks, and ends with a non-blank. */
  lemma {:induction false} TrimEndShape(s: string)
    ensures |TrimEnd(s)| <= |s| && TrimEnd(s) == s[..|TrimEnd(s)|]
    ensures AllBlank(s[|TrimEnd(s)|..])
    ensures TrimEnd(s) != [] ==> !Blank(TrimEnd(s)[|TrimEnd(s)| - 1])
  {
    if s != [] && Blank(s[|s| - 1]) {
      var p := s[..|s| - 1];
      TrimEndShape(p);
      var r := TrimEnd(s);
      assert s[|r|..] == p[|r|..] + [s[|s| - 1]];
    }
  }

  /** `String.trim`: leading blanks first, then trailing ones. */
  function Trim(s: string): (r: string)
  {
    TrimEnd(TrimStart(s))
  }

  /** Trim keeps a middle slice of its input, starting at the returned offset,
      drops only blanks around it, and leaves neither end blank. */
  lemma TrimShape(s: string) returns (i: nat)
    ensures i + |Trim(s)| <= |s| && Trim(s) == s[i..i + |Trim(s)|]
    ensures AllBlank(s[..i]) && AllBlank(s[i + |Trim(s)|..])
    ensures Trim(s) != [] ==> !Blank(Trim(s)[0]) && !Blank(Trim(s)[|Trim(s)| - 1])
  {
    var t := TrimStart(s);
    var r := TrimEnd(t);
    TrimStartShape(s);
    TrimEndShape(t);
    i := |s| - |t|;
    assert s[i..i + |r|] == t[..|r|];
    assert s[i + |r|..] == t[|r|..];
    if r != [] {
      assert r[0] == t[0];
    }
  }

  /** The reference reading of trim: a string with non-blank ends, padded on both
      sides with blanks, trims back to itself. */
  lemma {:induction false} TrimOfPadded(pre: string, t: string, post: string)
    requires AllBlank(pre) && AllBlank(post)
    requires t != [] ==> !Blank(t[0]) && !Blank(t[|t| - 1])
    requires t == [] ==> post == []
    ensures Trim(pre + t + post) == t
  {
    assert pre + t + post == pre + (t + post);
    if t != [] {
      assert (t + post)[0] == t[0];
    } else {
      assert t + post == [];
    }
    TrimStartOfPadded(pre, t + post);
    TrimEndOfPadded(t, post);
  }

  lemma {:induction false} TrimStartOfPadded(pre: string, u: string)
    requires AllBlank(pre)
    requires u != [] ==> !Blank(u[0])
    ensures TrimStart(pre + u) == u
    decreases |pre|
  {
    if pre != [] {
      assert (pre + u)[1..] == pre[1..] + u;
      TrimStartOfPadded(pre[1..], u);
    } else {
      assert pre + u == u;
    }
  }

  lemma {:induction false} TrimEndOfPadded(t: string, post: string)
    requires AllBlank(post)
    requires t != [] ==> !Blank(t[|t| - 1])
    ensures TrimEnd(t + post) == t
    decreases |post|
  {
    if post != [] {
      var p := post[..|post| - 1];
      assert (t + post)[..|t + post| - 1] == t + p;
      TrimEndOfPadded(t, p);
    } else {
      assert t + post == t;
    }
  }

  /** Trimming twice is trimming once. */
  lemma TrimIdempotent(s: string)
    ensures Trim(Trim(s)) == Trim(s)
  {
    var r := Trim(s);
    var _ := TrimShape(s);
    TrimOfPadded([], r, []);
    assert [] + r + [] == r;
  }

  // ---------------------------------------------------------------------------
  // startsWith, endsWith, contains
  // ---------------------------------------------------------------------------

  predicate StartsWith(s: string, prefix: string)
  {
    prefix <= s
  }

  predicate EndsWith(s: string, suffix: string)
  {
    |suffix| <= |s| && s[|s| - |suffix|..] == suffix
  }

  /** `String.contains`: `t` occurs in `s` at some offset. */
  predicate Contains(s: string, t: string)
    decreases |s|
  {
    StartsWith(s, t) || (s != [] && Contains(s[1..], t))
  }

  // ---------------------------------------------------------------------------
  // String.split with a one-character separator (Java's fast path)
  // ---------------------------------------------------------------------------

  /** All pieces of `s` between separators, empty ones included. */
  function Pieces(s: string, sep: char): (r: seq<string>)
    ensures |r| >= 1
  {
    if s == [] then [[]]
    else
      var rest := Pieces(s[1..], sep);
      if s[0] == sep then [[]] + rest
      else [[s[0]] + rest[0]] + rest[1..]
  }

  /** The pieces hold no separator, glue back to `s`, and there is more than
      one exactly when `s` holds a separator. */
  lemma PiecesShape(s: string, sep: char)
    ensures forall i :: 0 <= i < |Pieces(s, sep)| ==> sep !in Pieces(s, sep)[i]
    ensures Join(Pieces(s, sep), sep) == s
    ensures |Pieces(s, sep)| == 1 <==> sep !in s
  {
    PiecesSeparatorFree(s, sep);
    JoinOfPieces(s, sep);
    PiecesCount(s, sep);
  }

  lemma {:induction false} PiecesSeparatorFree(s: string, sep: char)
    ensures forall i :: 0 <= i < |Pieces(s, sep)| ==> sep !in Pieces(s, sep)[i]
    decreases |s|
  {
    if s != [] {
      var rest := Pieces(s[1..], sep);
      PiecesSeparatorFree(s[1..], sep);
      if s[0] != sep {
        var r := [[s[0]] + rest[0]] + rest[1..];
        assert forall i :: 1 <= i < |r| ==> r[i] == rest[i];
      }
    }
  }

  lemma {:induction false} JoinOfPieces(s: string, sep: char)
    ensures Join(Pieces(s, sep), sep) == s
    decreases |s|
  {
    if s != [] {
      var rest := Pieces(s[1..], sep);
      JoinOfPieces(s[1..], sep);
      if s[0] == sep {
        JoinAfterEmpty(rest, sep);
      } else {
        JoinExtendFirst(s[0], rest, sep);
      }
      assert s == [s[0]] + s[1..];
    }
  }

  /** An empty first part contributes only its separator. */
  lemma JoinAfterEmpty(parts: seq<string>, sep: char)
    requires |parts| >= 1
    ensures Join([[]] + parts, sep) == [sep] + Join(parts, sep)
  {
    assert ([[]] + parts)[1..] == parts;
  }

  /** A character put in front of the first part comes first in the join. */
  lemma JoinExtendFirst(c: char, parts: seq<string>, sep: char)
    requires |parts| >= 1
    ensures Join([[c] + parts[0]] + parts[1..], sep) == [c] + Join(parts, sep)
  {
    var q := [[c] + parts[0]] + parts[1..];
    assert q[1..] == parts[1..];
    if |parts| > 1 {
      assert Join(q, sep) == ([c] + parts[0]) + [sep] + Join(parts[1..], sep);
    }
  }

  lemma {:induction false} PiecesCount(s: string, sep: char)
    ensures |Pieces(s, sep)| == 1 <==> sep !in s
    decreases |s|
  {
    if s != [] {
      PiecesCount(s[1..], sep);
      assert s == [s[0]] + s[1..];
    }
  }

  /** The inverse of `Pieces`: the parts glued back with the separator. */
  function Join(parts: seq<string>, sep: char): (r: string)
    requires |parts| >= 1
  {
    if |parts| == 1 then parts[0] else parts[0] + [sep] + Join(parts[1..], sep)
  }

  /** Joining separator-free parts and cutting them apart again gives the parts back. */
  lemma {:induction false} PiecesOfJoin(parts: seq<string>, sep: char)
    requires |parts| >= 1
    requires forall i :: 0 <= i < |parts| ==> sep !in parts[i]
    ensures Pieces(Join(parts, sep), sep) == parts
    decreases |parts|, |parts[0]|
  {
    if |parts| == 1 {
      PiecesWithoutSeparator(parts[0], sep);
    } else if parts[0] == [] {
      PiecesOfJoin(parts[1..], sep);
      JoinAfterEmpty(parts[1..], sep);
      PiecesAfterSeparator(Join(parts[1..], sep), sep);
      assert parts == [[]] + parts[1..];
    } else {
      var shorter := [parts[0][1..]] + parts[1..];
      assert forall i :: 0 <= i < |shorter| ==> sep !in shorter[i] by {
        assert shorter[1..] == parts[1..];
      }
      PiecesOfJoin(shorter, sep);
      JoinExtendFirst(parts[0][0], shorter, sep);
      PiecesOfCons(parts[0][0], Join(shorter, sep), sep);
      assert parts[0] == [parts[0][0]] + parts[0][1..];
      assert parts == [[parts[0][0]] + shorter[0]] + shorter[1..];
    }
  }

  /** A leading separator closes an empty first piece. */
  lemma PiecesAfterSeparator(s: string, sep: char)
    ensures Pieces([sep] + s, sep) == [[]] + Pieces(s, sep)
  {
    assert ([sep] + s)[1..] == s;
  }

  /** A character other than the separator extends the first piece. */
  lemma PiecesOfCons(c: char, s: string, sep: char)
    requires c != sep
    ensures Pieces([c] + s, sep) == [[c] + Pieces(s, sep)[0]] + Pieces(s, sep)[1..]
  {
    assert ([c] + s)[1..] == s;
  }

  lemma {:induction false} PiecesWithoutSeparator(s: string, sep: char)
    requires sep !in s
    ensures Pieces(s, sep) == [s]
    decreases |s|
  {
    if s != [] {
      assert sep !in s[1..];
      PiecesWithoutSeparator(s[1..], sep);
      assert s == [s[0]] + s[1..];
      assert s[0] != sep;
    }
  }

  /** Drops the trailing empty strings of `parts`, as split does with limit 0. */
  function DropTrailingEmpty(parts: seq<string>): (r: seq<string>)
    ensures r <= parts
    ensures r != [] ==> r[|r| - 1] != []
    ensures forall i :: |r| <= i < |parts| ==> parts[i] == []
  {
    if parts == [] || parts[|parts| - 1] != [] then parts
    else DropTrailingEmpty(parts[..|parts| - 1])
  }

  /** `String.split(",")` (and any other one-character literal separator): with
      no separator in `s` the result is `[s]` itself, even for the empty string;
      otherwise every piece is kept, untrimmed, except the trailing empty ones. */
  function Split(s: string, sep: char): (r: seq<string>)
    ensures forall i :: 0 <= i < |r| ==> sep !in r[i]
    ensures sep !in s ==> r == [s]
    ensures sep in s ==> r <= Pieces(s, sep) && (r != [] ==> r[|r| - 1] != [])
    ensures sep in s ==> forall i :: |r| <= i < |Pieces(s, sep)| ==> Pieces(s, sep)[i] == []
  {
    PiecesShape(s, sep);
    if sep !in s then [s] else DropTrailingEmpty(Pieces(s, sep))
  }

  /** Splitting a join of separator-free parts whose last part is non-empty
      gives the parts back. */
  lemma SplitOfJoin(parts: seq<string>, sep: char)
    requires |parts| >= 1
    requires forall i :: 0 <= i < |parts| ==> sep !in parts[i]
    requires |parts| == 1 || parts[|parts| - 1] != []
    ensures Split(Join(parts, sep), sep) == parts
  {
    PiecesOfJoin(parts, sep);
    var s := Join(parts, sep);
    PiecesShape(s, sep);
    if |parts| == 1 {
      assert sep !in s;
    } else {
      assert sep in s;
    }
  }

  // ---------------------------------------------------------------------------
  // String.compareTo
  // ---------------------------------------------------------------------------

  /** `String.compareTo`: the difference of the first differing characters, or
      of the lengths when one string is a prefix of the other. */
  function CompareTo(a: string, b: string): (r: int)
    ensures r == 0 <==> a == b
  {
    if a == [] || b == [] then |a| - |b|
    else if a[0] != b[0] then a[0] as int - b[0] as int
    else
      assert a == [a[0]] + a[1..] && b == [b[0]] + b[1..];
      CompareTo(a[1..], b[1..])
  }

  /** Swapping the operands of `compareTo` negates the result. */
  lemma {:induction false} CompareToAntisymmetric(a: string, b: string)
    ensures CompareTo(a, b) == -CompareTo(b, a)
    decreases |a|
  {
    if a != [] && b != [] && a[0] == b[0] {
      CompareToAntisymmetric(a[1..], b[1..]);
    }
  }

  /** After a common prefix, the first differing characters decide: the
      result is their difference, whatever follows them. */
  lemma {:induction false} CompareToFirstDifference(p: string, x: char, y: char, s: string, t: string)
    requires x != y
    ensures CompareTo(p + [x] + s, p + [y] + t) == x as int - y as int
    decreases |p|
  {
    var a, b := p + [x] + s, p + [y] + t;
    if p == [] {
      assert a[0] == x && b[0] == y;
    } else {
      assert a[0] == p[0] == b[0];
      assert a[1..] == p[1..] + [x] + s && b[1..] == p[1..] + [y] + t;
      CompareToFirstDifference(p[1..], x, y, s, t);
    }
  }

  /** A string compares below each proper extension of it, by the number of
      extra characters. */
  lemma {:induction false} CompareToProperPrefix(p: string, s: string)
    requires s != []
    ensures CompareTo(p, p + s) == -|s| && CompareTo(p + s, p) == |s|
    decreases |p|
  {
    if p != [] {
      var b := p + s;
      assert b[0] == p[0] && b[1..] == p[1..] + s;
      CompareToProperPrefix(p[1..], s);
    }
  }

  /** The order `compareTo` induces is transitive. */
  lemma {:induction false} CompareToTransitive(a: string, b: string, c: string)
    requires CompareTo(a, b) <= 0 && CompareTo(b, c) <= 0
    ensures CompareTo(a, c) <= 0
    decreases |a|
  {
    if a != [] && b != [] && c != [] && a[0] == b[0] && b[0] == c[0] {
      CompareToTransitive(a[1..], b[1..], c[1..]);
    }
  }

  // ---------------------------------------------------------------------------
  // Integer.parseInt and Integer.toString (radix 10)
  // ---------------------------------------------------------------------------

  const MinInt: int := -0x8000_0000
  const MaxInt: int := 0x7fff_ffff

  predicate IsDigit(c: char)
  {
    '0' <= c <= '9'
  }

  predicate AllDigits(s: string)
  {
    forall i :: 0 <= i < |s| ==> IsDigit(s[i])
  }

  /** The value of a string of decimal digits, most significant first. */
  function DigitsValue(ds: string): nat
    requires AllDigits(ds)
  {
    if ds == [] then 0
    else DigitsValue(ds[..|ds| - 1]) * 10 + (ds[|ds| - 1] as int - '0' as int)
  }

  /** `Integer.parseInt(s)`: an optional sign, at least one digit, and a value
      that fits in 32 bits; `None` stands for the NumberFormatException. */
  function ParseInt(s: string): (r: Option<int>)
    ensures r.Some? ==> MinInt <= r.value <= MaxInt
    ensures r.Some? ==> s != [] && (s[0] == '-' || s[0] == '+' || IsDigit(s[0]))
  {
    if s == [] then None
    else
      var digits := if s[0] == '-' || s[0] == '+' then s[1..] else s;
      if digits == [] || !AllDigits(digits) then None
      else
        var v: int := if s[0] == '-' then -(DigitsValue(digits) as int) else DigitsValue(digits);
        if MinInt <= v <= MaxInt then Some(v) else None
  }

  /** `parseInt` of an unsigned or `+`-signed digit string is its value
      when that fits in 32 bits, and a NumberFormatException otherwise. */
  lemma ParseIntOfDigits(ds: string)
    requires ds != [] && AllDigits(ds)
    ensures ParseInt(ds) == if DigitsValue(ds) <= MaxInt then Some(DigitsValue(ds) as int) else None
    ensures ParseInt("+" + ds) == ParseInt(ds)
  {
    assert IsDigit(ds[0]);
    assert ("+" + ds)[1..] == ds;
  }

  /** `parseInt` of a `-`-signed digit string is its negated value when that
      fits in 32 bits, and a NumberFormatException otherwise. */
  lemma ParseIntOfNegativeDigits(ds: string)
    requires ds != [] && AllDigits(ds)
    ensures ParseInt("-" + ds) == if -(DigitsValue(ds) as int) >= MinInt then Some(-(DigitsValue(ds) as int)) else None
  {
    assert ("-" + ds)[1..] == ds;
  }

  /** `parseInt` rejects the empty string, a lone sign, and any string with a
      character that is neither a digit nor a leading sign. */
  lemma ParseIntRejects(s: string, i: int)
    requires 0 <= i < |s| && !IsDigit(s[i]) && !(i == 0 && (s[0] == '-' || s[0] == '+'))
    ensures ParseInt(s) == None
    ensures ParseInt("") == None && ParseInt("-") == None && ParseInt("+") == None
  {
    if s[0] == '-' || s[0] == '+' {
      assert s[1..][i - 1] == s[i];
    }
  }

  function DigitChar(d: nat): (c: char)
    requires d < 10
    ensures IsDigit(c) && c as int - '0' as int == d
  {
    ('0' as int + d) as char
  }

  /** The decimal digits of `n`, without leading zeros. */
  function Digits(n: nat): (ds: string)
    ensures ds != [] && AllDigits(ds)
  {
    if n < 10 then [DigitChar(n)] else Digits(n / 10) + [DigitChar(n % 10)]
  }

  /** `Integer.toString(n)` / string concatenation of an int. */
  function IntToString(n: int): string
  {
    if n < 0 then "-" + Digits(-n) else Digits(n)
  }

  lemma {:induction false} DigitsValueOfDigits(n: nat)
    ensures DigitsValue(Digits(n)) == n
  {
    if n >= 10 {
      DigitsValueOfDigits(n / 10);
      var ds := Digits(n);
      assert ds[..|ds| - 1] == Digits(n / 10);
    }
  }

  /** Parsing the printed form of any 32-bit int gives it back. */
  lemma ParseIntOfIntToString(n: int)
    requires MinInt <= n <= MaxInt
    ensures ParseInt(IntToString(n)) == Some(n)
  {
    if n < 0 {
      DigitsValueOfDigits(-n);
      assert IntToString(n)[1..] == Digits(-n);
    } else {
      DigitsValueOfDigits(n);
      assert IsDigit(Digits(n)[0]);
    }
  }

  lemma {:induction false} DigitsValueLeadingZero(ds: string)
    requires AllDigits(ds)
    ensures AllDigits("0" + ds) && DigitsValue("0" + ds) == DigitsValue(ds)
    decreases |ds|
  {
    if ds != [] {
      DigitsValueLeadingZero(ds[..|ds| - 1]);
      assert ("0" + ds)[..|"0" + ds| - 1] == "0" + ds[..|ds| - 1];
    }
  }

  /** A leading zero does not change the parsed value: "01" and "1" name the same int. */
  lemma ParseIntLeadingZero(ds: string)
    requires ds != [] && AllDigits(ds)
    ensures ParseInt("0" + ds) == ParseInt(ds)
  {
    DigitsValueLeadingZero(ds);
    assert IsDigit(ds[0]);
  }
}
