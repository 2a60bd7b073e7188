/**
 * The parts of java.lang.String and java.lang.Integer that the downloader relies on:
 * `contains`, `startsWith`, `trim`, `split` with a one-character separator,
 * `Integer.parseInt` and the decimal rendering of an `int` by `%s`.
 * Strings are `seq<char>`, a sequence of Unicode scalar values; Java counts `length()` and
 * `substring` positions in UTF-16 code units, and the two agree on text without characters
 * beyond U+FFFF.
 */
module JavaText {
  import opened Wrappers

  /** Java's 32-bit `int`. */
  type Int32 = x: int | -0x8000_0000 <= x <= 0x7FFF_FFFF

  /** The runtime exceptions the core can raise; none of them is caught, so each ends the run. */
  datatype Exception =
    | StringIndexOutOfBounds(begin: int, end: int, length: int)   // String.substring past the end
    | ArrayIndexOutOfBounds(index: int, length: int)              // an index into the array split returned
    | NumberFormat(input: string)                                 // Integer.parseInt of a non-numeral
    | IndexOutOfBounds(index: int, length: int)                   // List.get outside the list

  // ---------------------------------------------------------------------------------------------
  // startsWith and contains

  /** `t` occurs in `s` starting at position `i`. */
  predicate OccursAt(s: string, t: string, i: int) {
    0 <= i <= |s| - |t| && s[i..i + |t|] == t
  }

  /** String.startsWith: the prefix occurs at position 0, so the string also contains it. */
  predicate StartsWith(s: string, prefix: string): (r: bool)
    ensures r <==> OccursAt(s, prefix, 0)
    ensures r ==> Contains(s, prefix)
  {
    |prefix| <= |s| && s[..|prefix|] == prefix
  }

  /** String.contains: `t` occurs somewhere in `s`. */
  function Contains(s: string, t: string): (r: bool)
    ensures r <==> exists i :: OccursAt(s, t, i)
    decreases |s|
  {
    if |s| < |t| then false
    else if s[..|t|] == t then assert OccursAt(s, t, 0); true
    else
      ShiftOccurrence(s, t);
      Contains(s[1..], t)
  }

  /** Occurrences in `s[1..]` are the occurrences in `s` past position 0. */
  lemma ShiftOccurrence(s: string, t: string)
    requires |s| > 0
    ensures forall i :: OccursAt(s[1..], t, i) ==> OccursAt(s, t, i + 1)
    ensures forall j :: OccursAt(s, t, j) && j != 0 ==> OccursAt(s[1..], t, j - 1)
  {
    forall i | OccursAt(s[1..], t, i)
      ensures OccursAt(s, t, i + 1)
    {
      assert s[1..][i..i + |t|] == s[i + 1..i + 1 + |t|];
    }
    forall j | OccursAt(s, t, j) && j != 0
      ensures OccursAt(s[1..], t, j - 1)
    {
      assert s[1..][j - 1..j - 1 + |t|] == s[j..j + |t|];
    }
  }

  /** A string without the first character of a non-empty `t` does not contain `t`. */
  lemma LacksFirstChar(s: string, t: string)
    requires |t| > 0 && t[0] !in s
    ensures !Contains(s, t)
  {
    forall i
      ensures !OccursAt(s, t, i)
    {
      if 0 <= i <= |s| - |t| {
        assert s[i..i + |t|][0] == s[i];
      }
    }
  }

  // ---------------------------------------------------------------------------------------------
  // trim

  /** String.trim removes every leading and trailing character whose code is at most U+0020. */
  predicate IsTrimmable(c: char) {
    c <= ' '
  }

  predicate AllTrimmable(s: string) {
    forall k :: 0 <= k < |s| ==> IsTrimmable(s[k])
  }

  function TrimStart(s: string): (r: string)
    ensures |r| <= |s| && r == s[|s| - |r|..]
    ensures r == [] || !IsTrimmable(r[0])
    ensures AllTrimmable(s[..|s| - |r|])
    decreases |s|
  {
    if s != [] && IsTrimmable(s[0]) then
      var r := TrimStart(s[1..]);
      assert s[..|s| - |r|] == [s[0]] + s[1..][..|s[1..]| - |r|];
      r
    else s
  }

  function TrimEnd(s: string): (r: string)
    ensures |r| <= |s| && r == s[..|r|]
    ensures r == [] || !IsTrimmable(r[|r| - 1])
    ensures AllTrimmable(s[|r|..])
    decreases |s|
  {
    if s != [] && IsTrimmable(s[|s| - 1]) then
      var r := TrimEnd(s[..|s| - 1]);
      assert s[|r|..] == s[..|s| - 1][|r|..] + [s[|s| - 1]];
      r
    else s
  }

  /** String.trim. */
  function Trim(s: string): (r: string)
    ensures |r| <= |s|
    ensures r == [] || (!IsTrimmable(r[0]) && !IsTrimmable(r[|r| - 1]))
    ensures r == [] <==> AllTrimmable(s)
  {
    var u := TrimStart(s);
    assert u == [] ==> s[..|s|] == s;
    assert u != [] ==> !IsTrimmable(s[|s| - |u|]);
    TrimEnd(u)
  }

  /** Trimming removes exactly the padding around a value that has no padding of its own. */
  lemma TrimUnpadded(pre: string, t: string, post: string)
    requires AllTrimmable(pre) && AllTrimmable(post)
    requires t != [] && !IsTrimmable(t[0]) && !IsTrimmable(t[|t| - 1])
    ensures Trim(pre + t + post) == t
  {
    TrimStartSkips(pre, t + post);
    assert pre + t + post == pre + (t + post);
    TrimEndSkips(t, post);
  }

  lemma {:induction false} TrimStartSkips(pre: string, u: string)
    requires AllTrimmable(pre)
    requires u != [] && !IsTrimmable(u[0])
    ensures TrimStart(pre + u) == u
    decreases |pre|
  {
    var s := pre + u;
    if pre == [] {
      assert s == u;
      assert !IsTrimmable(s[0]);
    } else {
      assert s[0] == pre[0] && IsTrimmable(s[0]);
      assert s[1..] == pre[1..] + u;
      TrimStartSkips(pre[1..], u);
      assert TrimStart(s) == TrimStart(s[1..]);
    }
  }

  lemma {:induction false} TrimEndSkips(u: string, post: string)
    requires AllTrimmable(post)
    requires u != [] && !IsTrimmable(u[|u| - 1])
    ensures TrimEnd(u + post) == u
    decreases |post|
  {
    var s := u + post;
    if post == [] {
      assert s == u;
      assert !IsTrimmable(s[|s| - 1]);
    } else {
      assert s[|s| - 1] == post[|post| - 1] && IsTrimmable(s[|s| - 1]);
      assert s[..|s| - 1] == u + post[..|post| - 1];
      TrimEndSkips(u, post[..|post| - 1]);
      assert TrimEnd(s) == TrimEnd(s[..|s| - 1]);
    }
  }

  // ---------------------------------------------------------------------------------------------
  // split with a one-character separator

  /** Every piece of `s` between occurrences of `sep`, empty pieces included. */
  function Pieces(s: string, sep: char): (r: seq<string>)
    ensures |r| >= 1
    ensures forall k :: 0 <= k < |r| ==> sep !in r[k]
    decreases |s|
  {
    if s == [] then [""]
    else
      var rest := Pieces(s[1..], sep);
      if s[0] == sep then [""] + rest
      else [[s[0]] + rest[0]] + rest[1..]
  }

  /** The inverse of Pieces: the pieces joined with the separator. */
  function Join(ps: seq<string>, sep: char): string
    requires |ps| >= 1
    decreases |ps|
  {
    if |ps| == 1 then ps[0] else ps[0] + [sep] + Join(ps[1..], sep)
  }

  lemma {:induction false} JoinPieces(s: string, sep: char)
    ensures Join(Pieces(s, sep), sep) == s
    decreases |s|
  {
    if s != [] {
      JoinPieces(s[1..], sep);
      var rest := Pieces(s[1..], sep);
      if s[0] != sep {
        if |rest| == 1 {
          assert s == [s[0]] + s[1..];
        } else {
          assert ([[s[0]] + rest[0]] + rest[1..])[1..] == rest[1..];
          assert s == [s[0]] + s[1..];
        }
      } else {
        assert ([""] + rest)[1..] == rest;
        assert s == [s[0]] + s[1..];
      }
    }
  }

  /** A separator ends the last piece of what precedes it. */
  lemma {:induction false} PiecesAppend(a: string, b: string, sep: char)
    ensures Pieces(a + [sep] + b, sep) == Pieces(a, sep) + Pieces(b, sep)
    decreases |a|
  {
    if a == [] {
      assert a + [sep] + b == [sep] + b;
      assert ([sep] + b)[1..] == b;
    } else {
      assert (a + [sep] + b)[1..] == a[1..] + [sep] + b;
      PiecesAppend(a[1..], b, sep);
    }
  }

  /** All pieces are empty exactly when the string is made of separators only. */
  lemma {:induction false} PiecesAllEmpty(s: string, sep: char)
    ensures (forall k :: 0 <= k < |Pieces(s, sep)| ==> Pieces(s, sep)[k] == "")
        <==> (forall i :: 0 <= i < |s| ==> s[i] == sep)
    decreases |s|
  {
    if s != [] {
      PiecesAllEmpty(s[1..], sep);
      var rest := Pieces(s[1..], sep);
      var ps := Pieces(s, sep);
      if s[0] == sep {
        assert ps == [""] + rest;
        assert (forall k :: 0 <= k < |ps| ==> ps[k] == "") <==> (forall k :: 0 <= k < |rest| ==> rest[k] == "") by {
          forall k | 0 <= k < |rest| ensures ps[k + 1] == rest[k] { }
        }
        assert (forall i :: 0 <= i < |s| ==> s[i] == sep) <==> (forall i :: 0 <= i < |s[1..]| ==> s[1..][i] == sep) by {
          forall i | 0 <= i < |s[1..]| ensures s[i + 1] == s[1..][i] { }
        }
      } else {
        assert Pieces(s, sep)[0] != "";
      }
    }
  }

  /** `ps` with its trailing empty strings removed. */
  function DropTrailingEmpty(ps: seq<string>): (r: seq<string>)
    ensures |r| <= |ps| && r == ps[..|r|]
    ensures r == [] || r[|r| - 1] != ""
    ensures forall k :: |r| <= k < |ps| ==> ps[k] == ""
    decreases |ps|
  {
    if ps == [] then []
    else if ps[|ps| - 1] == "" then DropTrailingEmpty(ps[..|ps| - 1])
    else ps
  }

  /**
   * String.split with a single literal separator character and limit 0: a string without the
   * separator gives itself; otherwise the pieces, with the trailing empty ones removed.
   */
  function Split(s: string, sep: char): (r: seq<string>)
    ensures forall k :: 0 <= k < |r| ==> sep !in r[k]
    ensures sep !in s ==> r == [s]
    ensures sep in s ==> r == DropTrailingEmpty(Pieces(s, sep))
  {
    if sep !in s then
      assert Pieces(s, sep) == [s] by { JoinPieces(s, sep); SinglePiece(s, sep); }
      [s]
    else DropTrailingEmpty(Pieces(s, sep))
  }

  lemma {:induction false} SinglePiece(s: string, sep: char)
    requires sep !in s
    ensures Pieces(s, sep) == [s]
    decreases |s|
  {
    if s != [] {
      assert sep !in s[1..] by { assert forall i :: 0 <= i < |s| - 1 ==> s[1..][i] == s[i + 1]; }
      SinglePiece(s[1..], sep);
      assert s == [s[0]] + s[1..];
    }
  }

  // ---------------------------------------------------------------------------------------------
  // Integer.parseInt and Integer.toString

  predicate IsDigit(c: char) {
    '0' <= c <= '9'
  }

  predicate AllDigits(s: string) {
    forall k :: 0 <= k < |s| ==> IsDigit(s[k])
  }

  /** The value of a string of decimal digits, most significant first. */
  function DigitsValue(s: string): nat
    requires AllDigits(s)
    decreases |s|
  {
    if s == [] then 0
    else DigitsValue(s[..|s| - 1]) * 10 + (s[|s| - 1] - '0') as int
  }

  /** What follows an optional leading '+' or '-'. */
  function Unsigned(s: string): string {
    if s != [] && (s[0] == '-' || s[0] == '+') then s[1..] else s
  }

  /** The value of an optional sign followed by decimal digits. */
  function NumeralValue(s: string): int
    requires AllDigits(Unsigned(s))
  {
    var magnitude: int := DigitsValue(Unsigned(s));
    if s != [] && s[0] == '-' then -magnitude else magnitude
  }

  /**
   * Integer.parseInt: an optional '+' or '-' followed by at least one digit, with a value that
   * fits in an int; anything else throws NumberFormatException.
   */
  function ParseInt(s: string): (r: Result<Int32, Exception>)
    ensures r.Ok? <==> Unsigned(s) != [] && AllDigits(Unsigned(s)) && -0x8000_0000 <= NumeralValue(s) <= 0x7FFF_FFFF
    ensures r.Ok? ==> r.value == NumeralValue(s)
    ensures r.Err? ==> r == Err(NumberFormat(s))
  {
    if s == [] then Err(NumberFormat(s))
    else
      var digits := if s[0] == '-' || s[0] == '+' then s[1..] else s;
      if digits == [] || !AllDigits(digits) then Err(NumberFormat(s))
      else
        var magnitude: int := DigitsValue(digits);
        var v := if s[0] == '-' then -magnitude else magnitude;
        if -0x8000_0000 <= v <= 0x7FFF_FFFF then Ok(v) else Err(NumberFormat(s))
  }

  /** A sign alone is not a number, and leading zeros do not change the value. */
  lemma ParseIntEdges(digits: string)
    requires digits != [] && AllDigits(digits) && DigitsValue(digits) <= 0x7FFF_FFFF
    ensures ParseInt("+").Err? && ParseInt("-").Err?
    ensures ParseInt("+" + digits) == ParseInt(digits) == Ok(DigitsValue(digits))
    ensures ParseInt("0" + digits) == Ok(DigitsValue(digits))
  {
    assert Unsigned("+" + digits) == digits;
    assert Unsigned(digits) == digits;
    ZeroDigitsValue(digits);
    assert Unsigned("0" + digits) == "0" + digits;
  }

  /** A leading zero adds nothing to the value of a numeral. */
  lemma {:induction false} ZeroDigitsValue(digits: string)
    requires AllDigits(digits)
    ensures AllDigits("0" + digits) && DigitsValue("0" + digits) == DigitsValue(digits)
    decreases |digits|
  {
    if digits != [] {
      var init := digits[..|digits| - 1];
      ZeroDigitsValue(init);
      assert ("0" + digits)[..|"0" + digits| - 1] == "0" + init;
    } else {
      assert ("0" + digits)[..0] == [];
    }
  }

  /** The decimal digits of `n`, without leading zeros. */
  function NatToString(n: nat): (r: string)
    ensures r != [] && AllDigits(r)
    ensures |r| > 1 ==> r[0] != '0'
    decreases n
  {
    if n < 10 then [('0' as int + n) as char]
    else NatToString(n / 10) + [('0' as int + n % 10) as char]
  }

  /**
   * Integer.toString, which is also what `%s` prints for an int: a '-' exactly for a negative
   * number, then its digits without leading zeros.
   */
  function IntToString(n: int): (r: string)
    ensures r != []
    ensures forall k :: 0 <= k < |r| ==> IsDigit(r[k]) || (k == 0 && r[k] == '-')
    ensures r[0] == '-' <==> n < 0
    ensures var m := Unsigned(r);
      && m != [] && AllDigits(m) && (|m| > 1 ==> m[0] != '0') && NumeralValue(r) == n
  {
    if n < 0 then
      var digits := NatToString(-n);
      NatToStringValue(-n);
      assert Unsigned("-" + digits) == digits;
      "-" + digits
    else
      NatToStringValue(n);
      assert Unsigned(NatToString(n)) == NatToString(n);
      NatToString(n)
  }

  lemma {:induction false} NatToStringValue(n: nat)
    ensures DigitsValue(NatToString(n)) == n
    decreases n
  {
    if n >= 10 {
      NatToStringValue(n / 10);
      var s := NatToString(n);
      assert s[..|s| - 1] == NatToString(n / 10);
    }
  }

  /** Integer.parseInt reads back what Integer.toString printed. */
  lemma ParseIntToString(n: Int32)
    ensures ParseInt(IntToString(n)) == Ok(n)
  {
    var s := IntToString(n);
    if n < 0 {
      var m: nat := -(n as int);
      var digits := NatToString(m);
      assert s == "-" + digits;
      assert s[1..] == digits;
      NatToStringValue(m);
      assert ParseInt(s) == Ok(n);
    } else {
      NatToStringValue(n);
      assert s == NatToString(n);
      assert IsDigit(s[0]);
    }
  }

  /** A rendered int never starts or ends with trimmable padding. */
  lemma IntToStringUnpadded(n: int)
    ensures !IsTrimmable(IntToString(n)[0]) && !IsTrimmable(IntToString(n)[|IntToString(n)| - 1])
  {
  }
}
