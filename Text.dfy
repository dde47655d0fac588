/** The parts of Go's `strings`, `strconv` and `fmt` packages that the
    migration tool relies on, over strings as sequences of characters. */
module Text {
  import opened Wrappers

  // ---------------------------------------------------------------------
  // Decimal numbers: fmt's `%d`, strconv.Itoa and a decimal strconv.ParseInt
  // ---------------------------------------------------------------------

  predicate IsDigit(c: char) { '0' <= c <= '9' }

  predicate AllDigits(s: string) { forall i | 0 <= i < |s| :: IsDigit(s[i]) }

  function DigitChar(d: nat): (c: char)
    requires d < 10
    ensures IsDigit(c)
  {
    (('0' as int) + d) as char
  }

  function DigitValue(c: char): (d: nat)
    requires IsDigit(c)
    ensures d < 10
  {
    (c as int) - ('0' as int)
  }

  /** The decimal digits of `n`, most significant first, without leading zeros. */
  function NatToDecimal(n: nat): (s: string)
    ensures |s| >= 1 && AllDigits(s)
    ensures s[0] == '0' ==> n == 0
  {
    if n < 10 then [DigitChar(n)] else NatToDecimal(n / 10) + [DigitChar(n % 10)]
  }

  /** What `%d` and strconv.Itoa print for a signed integer. */
  function IntToDecimal(i: int): (s: string)
    ensures |s| >= 1
    ensures i >= 0 ==> AllDigits(s)
    ensures i < 0 ==> s[0] == '-' && |s| >= 2 && AllDigits(s[1..])
  {
    if i < 0 then "-" + NatToDecimal(-i) else NatToDecimal(i)
  }

  /** The value of a string of decimal digits (0 for the empty string). */
  function ParseDecimal(s: string): nat
    requires AllDigits(s)
  {
    if s == [] then 0 else ParseDecimal(s[..|s| - 1]) * 10 + DigitValue(s[|s| - 1])
  }

  /** Reading back what NatToDecimal wrote gives the number. */
  lemma {:induction false} ParseDecimalOfNatToDecimal(n: nat)
    ensures ParseDecimal(NatToDecimal(n)) == n
  {
    if n >= 10 {
      var s := NatToDecimal(n);
      assert s[..|s| - 1] == NatToDecimal(n / 10);
      ParseDecimalOfNatToDecimal(n / 10);
    }
  }

  /** strconv.ParseInt in base 10: an optional sign followed by at least one
      digit; anything else is an error (None). */
  function ParseInt(s: string): (r: Option<int>)
    ensures r.Some? <==>
      || (s != [] && AllDigits(s))
      || (|s| >= 2 && (s[0] == '-' || s[0] == '+') && AllDigits(s[1..]))
  {
    if s != [] && AllDigits(s) then Some(ParseDecimal(s))
    else if |s| >= 2 && s[0] == '-' && AllDigits(s[1..]) then Some(0 - ParseDecimal(s[1..]) as int)
    else if |s| >= 2 && s[0] == '+' && AllDigits(s[1..]) then Some(ParseDecimal(s[1..]))
    else None
  }

  /** parseInt reads back every integer that `%d` prints. */
  lemma ParseIntOfIntToDecimal(i: int)
    ensures ParseInt(IntToDecimal(i)) == Some(i)
  {
    if i < 0 {
      assert IntToDecimal(i)[1..] == NatToDecimal(-i);
      ParseDecimalOfNatToDecimal(-i);
    } else {
      ParseDecimalOfNatToDecimal(i);
    }
  }

  // ---------------------------------------------------------------------
  // Character maps: strings.Map, strings.Replace with one-character strings
  // ---------------------------------------------------------------------

  /** strings.Replace(s, string(from), string(to), -1): every `from` becomes `to`. */
  function ReplaceChar(s: string, from: char, to: char): (r: string)
    ensures |r| == |s|
    ensures forall i | 0 <= i < |s| :: r[i] == if s[i] == from then to else s[i]
  {
    if s == [] then [] else [if s[0] == from then to else s[0]] + ReplaceChar(s[1..], from, to)
  }

  /** After the replacement, `from` no longer occurs (unless it is `to` itself). */
  lemma ReplaceCharRemoves(s: string, from: char, to: char)
    requires from != to
    ensures from !in ReplaceChar(s, from, to)
  {
    var r := ReplaceChar(s, from, to);
    forall i | 0 <= i < |r| ensures r[i] != from {}
  }

  /** A second replacement changes nothing. */
  lemma ReplaceCharIdempotent(s: string, from: char, to: char)
    ensures ReplaceChar(ReplaceChar(s, from, to), from, to) == ReplaceChar(s, from, to)
  {
  }

  /** strings.Replace(s, string(c), "", -1): every `c` is deleted, the rest kept in order. */
  function RemoveChar(s: string, c: char): (r: string)
    ensures c !in r
    ensures |r| == |s| - multiset(s)[c]
    ensures forall x | x != c :: multiset(r)[x] == multiset(s)[x]
  {
    if s == [] then []
    else
      assert s == [s[0]] + s[1..];
      if s[0] == c then RemoveChar(s[1..], c) else [s[0]] + RemoveChar(s[1..], c)
  }

  /** Deleting a character that does not occur changes nothing. */
  lemma {:induction false} RemoveCharAbsent(s: string, c: char)
    requires c !in s
    ensures RemoveChar(s, c) == s
  {
    if s != [] {
      assert c !in s[1..];
      RemoveCharAbsent(s[1..], c);
    }
  }

  /** Deleting changes the string exactly when the character occurs in it. */
  lemma RemoveCharChanges(s: string, c: char)
    ensures RemoveChar(s, c) != s <==> c in s
  {
    if c !in s {
      RemoveCharAbsent(s, c);
    } else {
      assert multiset(s)[c] > 0;
    }
  }

  /** Deleting works piece by piece, so what is kept stays in its order:
      deleting from a concatenation concatenates the two results. */
  lemma {:induction false} RemoveCharAppend(a: string, b: string, c: char)
    ensures RemoveChar(a + b, c) == RemoveChar(a, c) + RemoveChar(b, c)
  {
    if a == [] {
      assert a + b == b;
    } else {
      assert (a + b)[0] == a[0];
      assert (a + b)[1..] == a[1..] + b;
      RemoveCharAppend(a[1..], b, c);
      if a[0] != c {
        var x, y := RemoveChar(a[1..], c), RemoveChar(b, c);
        assert [a[0]] + (x + y) == ([a[0]] + x) + y;
      }
    }
  }

  /** A single character is deleted when it is `c` and kept otherwise. */
  lemma RemoveCharOne(x: char, c: char)
    ensures RemoveChar([x], c) == if x == c then [] else [x]
  {
    assert [x][1..] == [];
  }

  /** ASCII lower-casing, standing in for strings.ToLower. */
  function ToLower(s: string): (r: string)
    ensures |r| == |s|
    ensures forall i | 0 <= i < |s| ::
      r[i] == if 'A' <= s[i] <= 'Z' then (s[i] as int + 32) as char else s[i]
  {
    if s == [] then []
    else [if 'A' <= s[0] <= 'Z' then (s[0] as int + 32) as char else s[0]] + ToLower(s[1..])
  }

  // ---------------------------------------------------------------------
  // strings.Split and strings.Trim with a one-character separator / cutset
  // ---------------------------------------------------------------------

  /** The position of the first `c` in `s`. */
  function IndexOf(s: string, c: char): (i: nat)
    requires c in s
    ensures i < |s| && s[i] == c && c !in s[..i]
  {
    if s[0] == c then 0
    else
      assert c in s[1..];
      var j := IndexOf(s[1..], c);
      assert s[..j + 1] == [s[0]] + s[1..][..j];
      j + 1
  }

  /** strings.Split(s, string(sep)): the pieces between separators, empty
      pieces included; there is always at least one piece. */
  function Split(s: string, sep: char): (parts: seq<string>)
    ensures |parts| >= 1
    ensures forall k | 0 <= k < |parts| :: sep !in parts[k]
    decreases |s|
  {
    if sep !in s then [s]
    else
      var i := IndexOf(s, sep);
      [s[..i]] + Split(s[i + 1..], sep)
  }

  /** strings.Join(parts, string(sep)). */
  function Join(parts: seq<string>, sep: char): string
    requires |parts| >= 1
  {
    if |parts| == 1 then parts[0] else parts[0] + [sep] + Join(parts[1..], sep)
  }

  /** Splitting loses nothing: joining the pieces gives the string back. */
  lemma {:induction false} JoinSplit(s: string, sep: char)
    ensures Join(Split(s, sep), sep) == s
    decreases |s|
  {
    if sep in s {
      var i := IndexOf(s, sep);
      var rest := Split(s[i + 1..], sep);
      assert Split(s, sep) == [s[..i]] + rest;
      assert Join(Split(s, sep), sep) == s[..i] + [sep] + Join(rest, sep) by {
        assert ([s[..i]] + rest)[1..] == rest;
      }
      JoinSplit(s[i + 1..], sep);
      assert s == s[..i] + [sep] + s[i + 1..];
    } else {
      assert Split(s, sep) == [s];
    }
  }

  /** The first occurrence is the one with no occurrence before it. */
  lemma IndexOfUnique(s: string, c: char, i: nat)
    requires i < |s| && s[i] == c && c !in s[..i]
    ensures IndexOf(s, c) == i
  {
    var r := IndexOf(s, c);
    assert forall k | 0 <= k < i :: s[..i][k] == s[k];
    assert forall k | 0 <= k < r :: s[..r][k] == s[k];
  }

  /** Splitting a string whose tail after its last separator is `b` ends with the piece `b`. */
  lemma {:induction false} SplitLastPiece(a: string, sep: char, b: string)
    requires sep !in b
    ensures var parts := Split(a + [sep] + b, sep); parts[|parts| - 1] == b
    decreases |a|
  {
    var s := a + [sep] + b;
    if sep in a {
      var j := IndexOf(a, sep);
      assert s[..j] == a[..j];
      IndexOfUnique(s, sep, j);
      var rest := a[j + 1..] + [sep] + b;
      assert s[j + 1..] == rest;
      SplitLastPiece(a[j + 1..], sep, b);
      var tail := Split(rest, sep);
      assert Split(s, sep) == [a[..j]] + tail;
    } else {
      assert s[..|a|] == a;
      IndexOfUnique(s, sep, |a|);
      assert s[|a| + 1..] == b;
      assert Split(s, sep) == [a, b];
    }
  }

  /** Splitting pieces that contain no separator, joined by it, gives the pieces back. */
  lemma {:induction false} SplitJoin(parts: seq<string>, sep: char)
    requires |parts| >= 1
    requires forall k | 0 <= k < |parts| :: sep !in parts[k]
    ensures Split(Join(parts, sep), sep) == parts
  {
    if |parts| > 1 {
      var rest := Join(parts[1..], sep);
      assert Join(parts, sep) == parts[0] + [sep] + rest;
      SplitCons(parts[0], sep, rest);
      SplitJoin(parts[1..], sep);
      assert parts == [parts[0]] + parts[1..];
    }
  }

  /** A separator-free first piece, then the separator: the split starts with that piece. */
  lemma SplitCons(a: string, sep: char, rest: string)
    requires sep !in a
    ensures Split(a + [sep] + rest, sep) == [a] + Split(rest, sep)
  {
    var s := a + [sep] + rest;
    assert s[|a|] == sep;
    assert s[..|a|] == a;
    IndexOfUnique(s, sep, |a|);
    assert s[|a| + 1..] == rest;
  }

  /** strings.TrimLeft(s, string(c)). */
  function TrimLeft(s: string, c: char): string
  {
    if s != [] && s[0] == c then TrimLeft(s[1..], c) else s
  }

  /** TrimLeft keeps a suffix of `s` that does not start with `c`. */
  lemma {:induction false} TrimLeftFacts(s: string, c: char)
    ensures |TrimLeft(s, c)| <= |s|
    ensures TrimLeft(s, c) == s[|s| - |TrimLeft(s, c)|..]
    ensures TrimLeft(s, c) == [] || TrimLeft(s, c)[0] != c
  {
    if s != [] && s[0] == c {
      var t := s[1..];
      TrimLeftFacts(t, c);
      var r := TrimLeft(t, c);
      assert TrimLeft(s, c) == r;
      assert t[|t| - |r|..] == s[|s| - |r|..];
    }
  }

  /** What TrimLeft cuts off is all `c`. */
  lemma {:induction false} TrimLeftCut(s: string, c: char)
    ensures forall k | 0 <= k < |s| - |TrimLeft(s, c)| :: s[k] == c
  {
    if s != [] && s[0] == c {
      var t := s[1..];
      TrimLeftCut(t, c);
      var r := TrimLeft(t, c);
      assert TrimLeft(s, c) == r;
      forall k | 1 <= k < |s| - |r| ensures s[k] == c {
        assert s[k] == t[k - 1];
      }
    }
  }

  /** strings.TrimRight(s, string(c)). */
  function TrimRight(s: string, c: char): string
  {
    if s != [] && s[|s| - 1] == c then TrimRight(s[..|s| - 1], c) else s
  }

  /** TrimRight keeps a prefix of `s` that does not end with `c`. */
  lemma {:induction false} TrimRightFacts(s: string, c: char)
    ensures |TrimRight(s, c)| <= |s|
    ensures TrimRight(s, c) == s[..|TrimRight(s, c)|]
    ensures TrimRight(s, c) == [] || TrimRight(s, c)[|TrimRight(s, c)| - 1] != c
  {
    if s != [] && s[|s| - 1] == c {
      var t := s[..|s| - 1];
      TrimRightFacts(t, c);
      var r := TrimRight(t, c);
      assert TrimRight(s, c) == r;
      assert t[..|r|] == s[..|r|];
    }
  }

  /** What TrimRight cuts off is all `c`. */
  lemma {:induction false} TrimRightCut(s: string, c: char)
    ensures forall k | |TrimRight(s, c)| <= k < |s| :: s[k] == c
  {
    if s != [] && s[|s| - 1] == c {
      var t := s[..|s| - 1];
      TrimRightCut(t, c);
      var r := TrimRight(t, c);
      assert TrimRight(s, c) == r;
      forall k | |r| <= k < |t| ensures s[k] == c {
        assert s[k] == t[k];
      }
    }
  }

  /** strings.Trim(s, string(c)): every leading and trailing `c` removed. */
  function Trim(s: string, c: char): string
  {
    TrimRight(TrimLeft(s, c), c)
  }

  /** What Trim keeps is a contiguous middle part of `s` that neither starts
      nor ends with `c`, and everything cut off on either side is `c`. */
  lemma TrimFacts(s: string, c: char)
    ensures var r := Trim(s, c);
      var i := |s| - |TrimLeft(s, c)|;
      && 0 <= i
      && (r == [] || (r[0] != c && r[|r| - 1] != c))
      && i + |r| <= |s|
      && r == s[i..i + |r|]
      && (forall k | 0 <= k < i :: s[k] == c)
      && (forall k | i + |r| <= k < |s| :: s[k] == c)
  {
    var l := TrimLeft(s, c);
    var r := TrimRight(l, c);
    TrimLeftFacts(s, c);
    TrimLeftCut(s, c);
    TrimRightFacts(l, c);
    TrimRightCut(l, c);
    var i := |s| - |l|;
    assert l == s[i..];
    assert r == s[i..i + |r|] by { assert r == l[..|r|]; }
    forall k | i + |r| <= k < |s| ensures s[k] == c {
      assert s[k] == l[k - i];
    }
  }

  /** A string that neither starts nor ends with `c` is left alone by Trim. */
  lemma TrimNoop(s: string, c: char)
    requires s == [] || (s[0] != c && s[|s| - 1] != c)
    ensures Trim(s, c) == s
  {
  }
}
