/**
 * The input file parser. Each line of the file other than the empty line becomes the
 * `(id, x, y)` of one city, in file order. A line goes through Java's text operations, written
 * out here with their library semantics:
 *  - `trim` drops the characters up to U+0020 at both ends;
 *  - `replaceAll(" +", " ")` turns every maximal run of spaces into one space;
 *  - `split(" ")` cuts at every space and then drops the trailing empty pieces, except that a
 *    string without a space comes back whole (so a blank line gives one empty field);
 *  - `Integer.parseInt` accepts an optional sign and decimal digits, within 32 bits.
 * The id is the first field minus one, in 32-bit arithmetic.
 */
module InputFileReader {
  import opened Wrappers

  const IntMin: int := -0x8000_0000
  const IntMax: int := 0x7fff_ffff

  // ---------------------------------------------------------------------------------------
  // trim

  /** What `String.trim` removes: the characters up to and including the space. */
  predicate IsWhite(c: char)
  {
    c <= ' '
  }

  ghost predicate AllWhite(s: string)
  {
    forall i :: 0 <= i < |s| ==> IsWhite(s[i])
  }

  /** Drops the leading white characters. */
  function TrimStart(s: string): (r: string)
    ensures |r| <= |s|
    ensures r == [] || !IsWhite(r[0])
  {
    if |s| > 0 && IsWhite(s[0]) then TrimStart(s[1..]) else s
  }

  /** Drops the trailing white characters. */
  function TrimEnd(s: string): (r: string)
    ensures |r| <= |s|
    ensures r == [] || !IsWhite(r[|r| - 1])
  {
    if |s| > 0 && IsWhite(s[|s| - 1]) then TrimEnd(s[..|s| - 1]) else s
  }

  /** `String.trim`. */
  function Trim(s: string): string
  {
    TrimEnd(TrimStart(s))
  }

  /** `TrimStart` keeps a suffix and drops only white characters. */
  lemma {:induction false} TrimStartShape(s: string)
    ensures TrimStart(s) == s[|s| - |TrimStart(s)|..]
    ensures AllWhite(s[..|s| - |TrimStart(s)|])
    decreases |s|
  {
    if |s| > 0 && IsWhite(s[0]) {
      TrimStartShape(s[1..]);
      var k := |s| - |TrimStart(s)|;
      assert s[..k] == [s[0]] + s[1..][..k - 1];
    }
  }

  /** `TrimEnd` keeps a prefix and drops only white characters. */
  lemma {:induction false} TrimEndShape(s: string)
    ensures TrimEnd(s) == s[..|TrimEnd(s)|]
    ensures AllWhite(s[|TrimEnd(s)|..])
    decreases |s|
  {
    if |s| > 0 && IsWhite(s[|s| - 1]) {
      var s' := s[..|s| - 1];
      TrimEndShape(s');
      var k := |TrimEnd(s)|;
      assert s[k..] == s'[k..] + [s[|s| - 1]];
    }
  }

  /**
   * The trimmed line keeps no white character at either end, and is empty exactly when the
   * line is all white.
   */
  lemma TrimShape(s: string)
    ensures Trim(s) == [] || (!IsWhite(Trim(s)[0]) && !IsWhite(Trim(s)[|Trim(s)| - 1]))
    ensures Trim(s) == [] <==> AllWhite(s)
  {
    var t := TrimStart(s);
    TrimStartShape(s);
    TrimEndShape(t);
    if Trim(s) == [] {
      assert AllWhite(t[0..]);
      assert s == s[..|s| - |t|] + t;
    } else {
      assert Trim(s)[0] == t[0];
    }
  }

  // ---------------------------------------------------------------------------------------
  // replaceAll(" +", " ")

  /** No two spaces are adjacent. */
  ghost predicate NoDoubleSpace(s: string)
  {
    forall i, j :: 0 <= i < j < |s| && j == i + 1 ==> !(s[i] == ' ' && s[j] == ' ')
  }

  lemma NoDoubleSpaceSuffix(s: string, k: nat)
    requires NoDoubleSpace(s) && k <= |s|
    ensures NoDoubleSpace(s[k..])
  {
    forall i, j | 0 <= i < j < |s| - k && j == i + 1 ensures !(s[k..][i] == ' ' && s[k..][j] == ' ') {
      assert s[k..][i] == s[i + k] && s[k..][j] == s[j + k];
    }
  }

  /** `s` with every space removed. */
  function Unspaced(s: string): string
  {
    if s == [] then [] else (if s[0] == ' ' then [] else [s[0]]) + Unspaced(s[1..])
  }

  /**
   * `replaceAll(" +", " ")`: every maximal run of spaces becomes one space, here by dropping
   * each space that another space follows.
   */
  function Squeeze(s: string): string
  {
    if s == [] then []
    else if s[0] == ' ' && |s| > 1 && s[1] == ' ' then Squeeze(s[1..])
    else [s[0]] + Squeeze(s[1..])
  }

  // ---------------------------------------------------------------------------------------
  // split(" ")

  /** The pieces of `s` between its spaces, empty ones included. */
  function Pieces(s: string): (r: seq<string>)
    ensures |r| >= 1
  {
    if s == [] then [[]]
    else if s[0] == ' ' then [[]] + Pieces(s[1..])
    else
      var rest := Pieces(s[1..]);
      [[s[0]] + rest[0]] + rest[1..]
  }

  /** The pieces glued back together with one space between neighbours. */
  function Join(xs: seq<string>): string
  {
    if xs == [] then [] else if |xs| == 1 then xs[0] else xs[0] + [' '] + Join(xs[1..])
  }

  /** Drops the empty pieces at the end. */
  function DropTrailingEmpty(xs: seq<string>): (r: seq<string>)
    ensures |r| <= |xs| && r == xs[..|r|]
    ensures r == [] || r[|r| - 1] != []
    ensures forall k :: |r| <= k < |xs| ==> xs[k] == []
  {
    if |xs| > 0 && xs[|xs| - 1] == [] then DropTrailingEmpty(xs[..|xs| - 1]) else xs
  }

  /** `String.split(" ")`. */
  function Split(s: string): seq<string>
  {
    if ' ' !in s then [s] else DropTrailingEmpty(Pieces(s))
  }

  /** The fields of a line: `line.trim().replaceAll(" +", " ").split(" ")`. */
  function Fields(line: string): seq<string>
  {
    Split(Squeeze(Trim(line)))
  }

  // ---------------------------------------------------------------------------------------
  // Lemmas about the text operations

  /** Splitting at every space and gluing back with single spaces gives the string back. */
  lemma {:induction false} PiecesJoin(s: string)
    ensures Join(Pieces(s)) == s
    decreases |s|
  {
    if s != [] {
      var rest := Pieces(s[1..]);
      PiecesJoin(s[1..]);
      if s[0] == ' ' {
        assert Pieces(s) == [[]] + rest;
        assert s == [' '] + s[1..];
      } else if |rest| == 1 {
        assert s == [s[0]] + s[1..];
      } else {
        assert Join(rest) == rest[0] + [' '] + Join(rest[1..]);
        assert s == [s[0]] + s[1..];
      }
    }
  }

  /** No piece holds a space. */
  lemma {:induction false} PiecesSpaceFree(s: string)
    ensures forall k :: 0 <= k < |Pieces(s)| ==> ' ' !in Pieces(s)[k]
    decreases |s|
  {
    if s != [] {
      var rest := Pieces(s[1..]);
      PiecesSpaceFree(s[1..]);
      if s[0] != ' ' {
        var r := Pieces(s);
        assert r[0] == [s[0]] + rest[0];
        assert forall k :: 1 <= k < |r| ==> r[k] == rest[k];
      }
    }
  }

  /** A space splits the pieces in two. */
  lemma {:induction false} PiecesAppend(a: string, b: string)
    ensures Pieces(a + [' '] + b) == Pieces(a) + Pieces(b)
    decreases |a|
  {
    if a == [] {
      assert a + [' '] + b == [' '] + b;
      assert ([' '] + b)[1..] == b;
    } else {
      var s := a + [' '] + b;
      assert s[0] == a[0] && s[1..] == a[1..] + [' '] + b;
      PiecesAppend(a[1..], b);
    }
  }

  /** A string without a space is a single piece. */
  lemma {:induction false} PiecesWord(f: string)
    requires ' ' !in f
    ensures Pieces(f) == [f]
    decreases |f|
  {
    if f != [] {
      assert f[0] in f;
      assert forall c :: c in f[1..] ==> c in f;
      PiecesWord(f[1..]);
      assert f == [f[0]] + f[1..];
    }
  }

  /** A non-empty string with no space at either end and no two adjacent spaces has no empty piece. */
  lemma {:induction false} PiecesNonEmpty(u: string)
    requires u != [] && u[0] != ' ' && u[|u| - 1] != ' ' && NoDoubleSpace(u)
    ensures forall k :: 0 <= k < |Pieces(u)| ==> Pieces(u)[k] != []
    decreases |u|
  {
    var rest := u[1..];
    if rest != [] {
      assert rest[|rest| - 1] == u[|u| - 1];
      if rest[0] == ' ' {
        var tail := rest[1..];
        assert tail != [];
        assert tail[0] == u[2] && tail[|tail| - 1] == u[|u| - 1];
        assert tail == u[2..];
        NoDoubleSpaceSuffix(u, 2);
        PiecesNonEmpty(tail);
        assert Pieces(rest) == [[]] + Pieces(tail);
      } else {
        NoDoubleSpaceSuffix(u, 1);
        PiecesNonEmpty(rest);
      }
    }
  }

  /**
   * The squeezed string has no two adjacent spaces, keeps the other characters in order, is
   * empty only for the empty input, and starts (ends) with a space exactly when the input does.
   */
  lemma {:induction false} SqueezeShape(s: string)
    ensures NoDoubleSpace(Squeeze(s))
    ensures Unspaced(Squeeze(s)) == Unspaced(s)
    ensures Squeeze(s) == [] <==> s == []
    ensures Squeeze(s) != [] ==> (Squeeze(s)[0] == ' ' <==> s[0] == ' ')
    ensures Squeeze(s) != [] ==> (Squeeze(s)[|Squeeze(s)| - 1] == ' ' <==> s[|s| - 1] == ' ')
    decreases |s|
  {
    if s != [] {
      var t := s[1..];
      var u := Squeeze(t);
      SqueezeShape(t);
      assert t != [] ==> t[|t| - 1] == s[|s| - 1];
      if s[0] == ' ' && |s| > 1 && s[1] == ' ' {
        assert Unspaced(s) == Unspaced(t);
      } else {
        var r := [s[0]] + u;
        assert Squeeze(s) == r;
        assert Unspaced(r) == (if s[0] == ' ' then [] else [s[0]]) + Unspaced(u) by {
          assert r[1..] == u;
        }
        forall i, j | 0 <= i < j < |r| && j == i + 1 ensures !(r[i] == ' ' && r[j] == ' ') {
          if i > 0 {
            assert r[i] == u[i - 1] && r[j] == u[j - 1];
          } else {
            assert r[j] == u[0];
          }
        }
      }
    }
  }

  /** A string with no two adjacent spaces is left alone. */
  lemma {:induction false} SqueezeFixed(s: string)
    requires NoDoubleSpace(s)
    ensures Squeeze(s) == s
    decreases |s|
  {
    if s != [] {
      NoDoubleSpaceSuffix(s, 1);
      SqueezeFixed(s[1..]);
      assert !(s[0] == ' ' && |s| > 1 && s[1] == ' ');
      assert s == [s[0]] + s[1..];
    }
  }

  /** Squeezing distributes over a join after a character other than a space. */
  lemma {:induction false} SqueezeAppend(a: string, b: string)
    requires a == [] || a[|a| - 1] != ' '
    ensures Squeeze(a + b) == Squeeze(a) + Squeeze(b)
    decreases |a|
  {
    if a == [] {
      assert a + b == b;
    } else {
      var t := a[1..];
      var ab := a + b;
      assert ab[0] == a[0] && ab[1..] == t + b;
      assert t != [] ==> t[|t| - 1] == a[|a| - 1];
      SqueezeAppend(t, b);
      if |a| == 1 {
        assert Squeeze(a) == [a[0]];
      } else {
        assert ab[1] == a[1];
      }
    }
  }

  /** Two adjacent spaces squeeze like one. */
  lemma {:induction false} SqueezeDouble(x: string, z: string)
    ensures Squeeze(x + [' ', ' '] + z) == Squeeze(x + [' '] + z)
    decreases |x|
  {
    var u, v := x + [' ', ' '] + z, x + [' '] + z;
    if x == [] {
      assert u[1..] == v;
    } else {
      assert u[0] == v[0] == x[0];
      assert u[1..] == x[1..] + [' ', ' '] + z && v[1..] == x[1..] + [' '] + z;
      assert |x| == 1 ==> u[1] == ' ' && v[1] == ' ';
      assert |x| > 1 ==> u[1] == x[1] && v[1] == x[1];
      SqueezeDouble(x[1..], z);
    }
  }

  /** `k` spaces. */
  function Spaces(k: nat): (r: string)
    ensures |r| == k && forall i :: 0 <= i < k ==> r[i] == ' '
  {
    if k == 0 then [] else [' '] + Spaces(k - 1)
  }

  /** A run of spaces squeezes to the same string as a single space. */
  lemma {:induction false} SqueezeRun(x: string, k: nat, y: string)
    requires k >= 1
    ensures Squeeze(x + Spaces(k) + y) == Squeeze(x + [' '] + y)
    decreases k
  {
    if k == 1 {
      assert Spaces(1) == [' '];
    } else {
      var z := Spaces(k - 2) + y;
      assert Spaces(k) == [' ', ' '] + Spaces(k - 2);
      assert Spaces(k - 1) == [' '] + Spaces(k - 2);
      assert x + Spaces(k) + y == x + [' ', ' '] + z;
      assert x + Spaces(k - 1) + y == x + [' '] + z;
      SqueezeDouble(x, z);
      SqueezeRun(x, k - 1, y);
    }
  }

  /** Leading white characters do not change what `TrimStart` keeps. */
  lemma {:induction false} TrimStartWhite(w: string, x: string)
    requires AllWhite(w)
    ensures TrimStart(w + x) == TrimStart(x)
    decreases |w|
  {
    if w != [] {
      assert (w + x)[1..] == w[1..] + x;
      TrimStartWhite(w[1..], x);
    } else {
      assert w + x == x;
    }
  }

  /** Once `x` holds a non-white character, `TrimStart` stops inside it. */
  lemma {:induction false} TrimStartAppend(x: string, y: string)
    requires !AllWhite(x)
    ensures TrimStart(x + y) == TrimStart(x) + y
    decreases |x|
  {
    if IsWhite(x[0]) {
      assert (x + y)[1..] == x[1..] + y;
      TrimStartAppend(x[1..], y);
    }
  }

  /** Trailing white characters do not change what `TrimEnd` keeps. */
  lemma {:induction false} TrimEndWhite(x: string, w: string)
    requires AllWhite(w)
    ensures TrimEnd(x + w) == TrimEnd(x)
    decreases |w|
  {
    if w != [] {
      var w' := w[..|w| - 1];
      assert (x + w)[..|x + w| - 1] == x + w';
      TrimEndWhite(x, w');
    } else {
      assert x + w == x;
    }
  }

  /** Once `y` holds a non-white character, `TrimEnd` stops inside it. */
  lemma {:induction false} TrimEndAppend(x: string, y: string)
    requires !AllWhite(y)
    ensures TrimEnd(x + y) == x + TrimEnd(y)
    decreases |y|
  {
    if IsWhite(y[|y| - 1]) {
      var y' := y[..|y| - 1];
      assert (x + y)[..|x + y| - 1] == x + y';
      TrimEndAppend(x, y');
    }
  }

  /** White characters around a line do not change its trimmed form. */
  lemma TrimPadding(w1: string, line: string, w2: string)
    requires AllWhite(w1) && AllWhite(w2)
    ensures Trim(w1 + line + w2) == Trim(line)
  {
    assert w1 + line + w2 == w1 + (line + w2);
    TrimStartWhite(w1, line + w2);
    if AllWhite(line) {
      assert AllWhite(line + w2);
      TrimShape(line + w2);
      TrimShape(line);
    } else {
      TrimStartAppend(line, w2);
      TrimEndWhite(TrimStart(line), w2);
    }
  }

  /** The trimmed form of `a + z + b` for a white separator `z`, by which side is blank. */
  lemma TrimAround(a: string, z: string, b: string)
    requires AllWhite(z)
    ensures AllWhite(a) ==> Trim(a + z + b) == Trim(b)
    ensures !AllWhite(a) && AllWhite(b) ==> Trim(a + z + b) == Trim(a)
    ensures !AllWhite(a) && !AllWhite(b) ==> Trim(a + z + b) == TrimStart(a) + z + TrimEnd(b)
  {
    if AllWhite(a) {
      assert AllWhite(a + z);
      TrimStartWhite(a + z, b);
    } else if AllWhite(b) {
      assert AllWhite(z + b);
      assert a + z + b == [] + a + (z + b);
      TrimPadding([], a, z + b);
    } else {
      TrimAroundWords(a, z, b);
    }
  }

  lemma TrimAroundWords(a: string, z: string, b: string)
    requires !AllWhite(a) && !AllWhite(b)
    ensures Trim(a + z + b) == TrimStart(a) + z + TrimEnd(b)
  {
    var t, zb := TrimStart(a), z + b;
    var s := a + z + b;
    assert s == a + zb;
    TrimStartAppend(a, zb);
    var tz := t + z;
    assert t + zb == tz + b;
    TrimEndAppend(tz, b);
    assert Trim(s) == tz + TrimEnd(b);
  }

  /** A run of spaces inside a line reads the same as a single space. */
  lemma FieldsRun(a: string, k: nat, b: string)
    requires k >= 1
    ensures Fields(a + Spaces(k) + b) == Fields(a + [' '] + b)
  {
    var z := Spaces(k);
    TrimAround(a, z, b);
    TrimAround(a, [' '], b);
    if !AllWhite(a) && !AllWhite(b) {
      SqueezeRun(TrimStart(a), k, TrimEnd(b));
    }
  }

  /**
   * A blank line has the single field `""`. Any other line has non-empty fields without spaces
   * which, joined by single spaces, give back the trimmed and squeezed line.
   */
  lemma FieldsShape(line: string)
    ensures AllWhite(line) ==> Fields(line) == [[]]
    ensures !AllWhite(line) ==> |Fields(line)| >= 1 && Join(Fields(line)) == Squeeze(Trim(line))
    ensures forall k :: 0 <= k < |Fields(line)| ==> ' ' !in Fields(line)[k]
    ensures !AllWhite(line) ==> forall k :: 0 <= k < |Fields(line)| ==> Fields(line)[k] != []
  {
    var t := Trim(line);
    var u := Squeeze(t);
    TrimShape(line);
    SqueezeShape(t);
    if t != [] {
      if ' ' in u {
        PiecesNonEmpty(u);
        PiecesSpaceFree(u);
        PiecesJoin(u);
        assert DropTrailingEmpty(Pieces(u)) == Pieces(u);
      }
    }
  }

  // ---------------------------------------------------------------------------------------
  // Integer.parseInt

  predicate IsDigit(c: char)
  {
    '0' <= c <= '9'
  }

  ghost predicate AllDigits(s: string)
  {
    forall i :: 0 <= i < |s| ==> IsDigit(s[i])
  }

  /** The value of a string of decimal digits, most significant first. */
  function DigitsValue(s: string): nat
    requires AllDigits(s)
  {
    if s == [] then 0 else DigitsValue(s[..|s| - 1]) * 10 + (s[|s| - 1] - '0') as nat
  }

  /**
   * `Integer.parseInt(s)`: an optional `-` or `+` and at least one decimal digit, giving a value
   * within 32 bits; `None` for anything else, as the `NumberFormatException`.
   */
  function ParseInt(s: string): (r: Option<int>)
    ensures r.Some? ==> IntMin <= r.value <= IntMax
    ensures r.Some? ==> s != [] && (r.value < 0 ==> s[0] == '-')
    ensures r.Some? ==> (IsDigit(s[0]) || s[0] == '-' || s[0] == '+') && forall i :: 0 < i < |s| ==> IsDigit(s[i])
    ensures r.Some? ==> IsDigit(s[|s| - 1])
  {
    if s == [] then None
    else
      var negative := s[0] == '-';
      var digits := if s[0] == '-' || s[0] == '+' then s[1..] else s;
      if digits == [] || !(forall i :: 0 <= i < |digits| ==> IsDigit(digits[i])) then None
      else
        var v := if negative then -(DigitsValue(digits) as int) else DigitsValue(digits) as int;
        if IntMin <= v <= IntMax then Some(v) else None
  }

  /** The digit character of `d`. */
  function DigitChar(d: nat): (c: char)
    requires d < 10
    ensures IsDigit(c) && (c - '0') as nat == d
  {
    '0' + d as char
  }

  /** The canonical decimal form of `n`: no sign, no leading zero. */
  function ShowNat(n: nat): (r: string)
    ensures r != [] && AllDigits(r)
    decreases n
  {
    if n < 10 then [DigitChar(n)] else ShowNat(n / 10) + [DigitChar(n % 10)]
  }

  /** The canonical decimal form of `v`, with `-` when negative. */
  function ShowInt(v: int): string
  {
    if v < 0 then ['-'] + ShowNat(-v) else ShowNat(v)
  }

  /** Reading the digits of `ShowNat(n)` gives `n` back. */
  lemma {:induction false} DigitsOfShow(n: nat)
    ensures DigitsValue(ShowNat(n)) == n
    decreases n
  {
    var r := ShowNat(n);
    if n >= 10 {
      DigitsOfShow(n / 10);
      assert r[..|r| - 1] == ShowNat(n / 10);
    } else {
      assert r[..0] == [];
    }
  }

  /** `Integer.parseInt` reads back every 32-bit value from its decimal form. */
  lemma ParseShow(v: int)
    requires IntMin <= v <= IntMax
    ensures ParseInt(ShowInt(v)) == Some(v)
  {
    DigitsOfShow(if v < 0 then -v else v);
    if v < 0 {
      assert ShowInt(v)[1..] == ShowNat(-v);
    } else {
      assert ShowNat(v)[0] != '-' && ShowNat(v)[0] != '+';
    }
  }

  /** `k` zero digits. */
  function Zeros(k: nat): (r: string)
    ensures |r| == k && forall i :: 0 <= i < k ==> r[i] == '0'
  {
    if k == 0 then [] else ['0'] + Zeros(k - 1)
  }

  /** A leading zero does not change the value of a string of digits. */
  lemma {:induction false} DigitsLeadingZero(s: string)
    requires AllDigits(s)
    ensures AllDigits(['0'] + s) && DigitsValue(['0'] + s) == DigitsValue(s)
    decreases |s|
  {
    var t := ['0'] + s;
    forall i | 0 <= i < |t| ensures IsDigit(t[i]) {
      if i > 0 { assert t[i] == s[i - 1]; }
    }
    if s == [] {
      assert t[..0] == [];
    } else {
      var s' := s[..|s| - 1];
      assert forall i :: 0 <= i < |s'| ==> s'[i] == s[i];
      DigitsLeadingZero(s');
      assert t[..|t| - 1] == ['0'] + s';
    }
  }

  /** Leading zeros do not change the value of a string of digits. */
  lemma {:induction false} DigitsLeadingZeros(k: nat, s: string)
    requires AllDigits(s)
    ensures AllDigits(Zeros(k) + s) && DigitsValue(Zeros(k) + s) == DigitsValue(s)
    decreases k
  {
    if k == 0 {
      assert Zeros(k) + s == s;
    } else {
      DigitsLeadingZeros(k - 1, s);
      assert Zeros(k) + s == ['0'] + (Zeros(k - 1) + s);
      DigitsLeadingZero(Zeros(k - 1) + s);
    }
  }

  /** An optional sign before a non-empty string of digits reads as its value, negated after `-`. */
  lemma ParseDigits(sign: string, d: string)
    requires sign == [] || sign == ['+'] || sign == ['-']
    requires d != [] && AllDigits(d)
    requires if sign == ['-'] then DigitsValue(d) <= -IntMin else DigitsValue(d) <= IntMax
    ensures ParseInt(sign + d) == Some(if sign == ['-'] then -(DigitsValue(d) as int) else DigitsValue(d) as int)
  {
    var s := sign + d;
    if sign == [] {
      assert s == d;
      assert IsDigit(d[0]);
    } else {
      assert s[0] == sign[0] && s[1..] == d;
    }
  }

  /**
   * `Integer.parseInt` accepts a `+` or `-` sign and any number of leading zeros: the digits of
   * `n` after either, within the 32-bit range, read as `n` or `-n`.
   */
  lemma ParseSignedPadded(sign: string, k: nat, n: nat)
    requires sign == [] || sign == ['+'] || sign == ['-']
    requires if sign == ['-'] then n <= -IntMin else n <= IntMax
    ensures ParseInt(sign + (Zeros(k) + ShowNat(n))) == Some(if sign == ['-'] then -(n as int) else n as int)
  {
    var shown := ShowNat(n);
    var d := Zeros(k) + shown;
    DigitsLeadingZeros(k, shown);
    DigitsOfShow(n);
    assert d != [] && DigitsValue(d) == n;
    ParseDigits(sign, d);
  }

  /** The value `v` as a Java `int` does it: reduced into `IntMin .. IntMax` modulo 2^32. */
  function Wrap32(v: int): (r: int)
    ensures IntMin <= r <= IntMax
    ensures (r - v) % 0x1_0000_0000 == 0
    ensures IntMin <= v <= IntMax ==> r == v
  {
    (v - IntMin) % 0x1_0000_0000 + IntMin
  }

  // ---------------------------------------------------------------------------------------
  // convertLineToCity and read

  /** The `(id, x, y)` a line gives to `new City(id, x, y)`. */
  datatype CityData = CityData(id: int, x: int, y: int)

  /** Why a line cannot become a city: a field is absent, or is not a 32-bit integer. */
  datatype ParseError = MissingField(index: nat) | NotAnInteger(field: string)

  /** `Integer.parseInt(data[k])`, failing first on the index and then on the number. */
  function Field(data: seq<string>, k: nat): (r: Result<int, ParseError>)
    ensures r.Success? <==> k < |data| && ParseInt(data[k]).Some?
    ensures r.Success? ==> r.value == ParseInt(data[k]).value
    ensures r.Failure? && k >= |data| ==> r.error == MissingField(k)
    ensures r.Failure? && k < |data| ==> r.error == NotAnInteger(data[k])
  {
    if k >= |data| then Failure(MissingField(k))
    else match ParseInt(data[k])
      case None => Failure(NotAnInteger(data[k]))
      case Some(v) => Success(v)
  }

  /** The city of the fields `data`, evaluating `data[0]`, `data[1]`, `data[2]` in that order. */
  function ConvertFields(data: seq<string>): Result<CityData, ParseError>
  {
    match Field(data, 0)
    case Failure(e) => Failure(e)
    case Success(first) =>
      match Field(data, 1)
      case Failure(e) => Failure(e)
      case Success(x) =>
        match Field(data, 2)
        case Failure(e) => Failure(e)
        case Success(y) => Success(CityData(Wrap32(first - 1), x, y))
  }

  /** A field holding the decimal form of a 32-bit integer reads as that integer. */
  lemma FieldShown(data: seq<string>, k: nat, v: int)
    requires k < |data| && data[k] == ShowInt(v) && IntMin <= v <= IntMax
    ensures Field(data, k) == Success(v)
  {
    ParseShow(v);
  }

  /** A field that is empty or does not end in a digit is reported as that field, not a number. */
  lemma FieldNotNumber(data: seq<string>, k: nat)
    requires k < |data| && (data[k] == [] || !IsDigit(data[k][|data[k]| - 1]))
    ensures Field(data, k) == Failure(NotAnInteger(data[k]))
  {
  }

  /** `convertLineToCity`. */
  function ConvertLine(line: string): Result<CityData, ParseError>
  {
    ConvertFields(Fields(line))
  }

  /** The lines `read` keeps: all but the empty ones, in order. */
  function NonEmptyLines(lines: seq<string>): (r: seq<string>)
    ensures |r| <= |lines|
    ensures forall k :: 0 <= k < |r| ==> r[k] != [] && r[k] in lines
  {
    if lines == [] then []
    else if lines[0] == [] then NonEmptyLines(lines[1..])
    else [lines[0]] + NonEmptyLines(lines[1..])
  }

  /** The cities of a run of per-line results, or the first error among them. */
  function Collect(results: seq<Result<CityData, ParseError>>): Result<seq<CityData>, ParseError>
  {
    if results == [] then Success([])
    else match results[0]
      case Failure(e) => Failure(e)
      case Success(c) =>
        match Collect(results[1..])
        case Failure(e) => Failure(e)
        case Success(cs) => Success([c] + cs)
  }

  /** The result of converting each line with `convert`, in order. */
  function ConvertEach(lines: seq<string>, convert: string -> Result<CityData, ParseError>): (r: seq<Result<CityData, ParseError>>)
    ensures |r| == |lines| && forall k :: 0 <= k < |lines| ==> r[k] == convert(lines[k])
  {
    seq(|lines|, k requires 0 <= k < |lines| => convert(lines[k]))
  }

  /** The loop of `read` over the lines of the file, with the conversion of one line as a parameter. */
  function ReadWith(lines: seq<string>, convert: string -> Result<CityData, ParseError>): Result<seq<CityData>, ParseError>
  {
    Collect(ConvertEach(NonEmptyLines(lines), convert))
  }

  /** `read`, over the lines of the file. */
  function Read(lines: seq<string>): Result<seq<CityData>, ParseError>
  {
    ReadWith(lines, ConvertLine)
  }

  // ---------------------------------------------------------------------------------------
  // Lemmas about lines and files

  /** A field as a well-formed file holds it: non-empty, without white characters. */
  ghost predicate Word(f: string)
  {
    f != [] && forall i :: 0 <= i < |f| ==> !IsWhite(f[i])
  }

  /** Every field is a word. */
  ghost predicate Words(fs: seq<string>)
  {
    forall k :: 0 <= k < |fs| ==> Word(fs[k])
  }

  /** The decimal form of an integer is a word. */
  lemma ShowIntWord(v: int)
    ensures Word(ShowInt(v))
  {
    var r := ShowInt(v);
    if v < 0 {
      assert forall i :: 1 <= i < |r| ==> r[i] == ShowNat(-v)[i - 1];
    }
  }

  /** Words joined by single spaces have no double space and a word character at each end. */
  lemma {:induction false} JoinWords(fs: seq<string>)
    requires |fs| >= 1 && forall k :: 0 <= k < |fs| ==> Word(fs[k])
    ensures var j := Join(fs);
      && j != [] && !IsWhite(j[0]) && !IsWhite(j[|j| - 1]) && NoDoubleSpace(j)
      && j[0] == fs[0][0]
    ensures forall k :: 0 <= k < |fs| ==> ' ' !in fs[k]
    decreases |fs|
  {
    forall k | 0 <= k < |fs| ensures ' ' !in fs[k] {
      assert forall i :: 0 <= i < |fs[k]| ==> fs[k][i] != ' ';
    }
    if |fs| > 1 {
      JoinWords(fs[1..]);
      var h, t := fs[0], Join(fs[1..]);
      var j := h + [' '] + t;
      assert Join(fs) == j;
      forall a, b | 0 <= a < b < |j| && b == a + 1 ensures !(j[a] == ' ' && j[b] == ' ') {
        if b < |h| {
          assert j[a] == h[a];
        } else if a == |h| {
          assert j[b] == t[0];
        } else if a > |h| {
          assert j[a] == t[a - |h| - 1] && j[b] == t[b - |h| - 1];
        }
      }
      assert j[|j| - 1] == t[|t| - 1];
    }
  }

  /** Splitting words joined by single spaces gives the words back. */
  lemma {:induction false} PiecesOfJoin(fs: seq<string>)
    requires |fs| >= 1 && forall k :: 0 <= k < |fs| ==> ' ' !in fs[k]
    ensures Pieces(Join(fs)) == fs
    decreases |fs|
  {
    PiecesWord(fs[0]);
    if |fs| > 1 {
      PiecesOfJoin(fs[1..]);
      PiecesAppend(fs[0], Join(fs[1..]));
      assert fs == [fs[0]] + fs[1..];
    }
  }

  /** A line of words separated by single spaces has exactly those words as its fields. */
  lemma FieldsOfJoin(fs: seq<string>)
    requires |fs| >= 1 && forall k :: 0 <= k < |fs| ==> Word(fs[k])
    ensures Fields(Join(fs)) == fs
  {
    var j := Join(fs);
    JoinWords(fs);
    assert Trim(j) == j;
    SqueezeFixed(j);
    PiecesOfJoin(fs);
    if ' ' !in j {
      PiecesWord(j);
    } else {
      assert fs[|fs| - 1] != [];
    }
  }

  /**
   * The city of the fields is built from the first three, and when one of them is absent or
   * not an integer, the first such field decides the error; fields after the third are ignored.
   */
  lemma ConvertFieldsSpec(data: seq<string>)
    ensures ConvertFields(data).Success? <==> |data| >= 3 && forall k :: 0 <= k < 3 ==> ParseInt(data[k]).Some?
    ensures ConvertFields(data).Success? ==>
      ConvertFields(data).value == CityData(Wrap32(ParseInt(data[0]).value - 1), ParseInt(data[1]).value, ParseInt(data[2]).value)
    ensures forall k :: 0 <= k < 3 && Field(data, k).Failure? && (forall i :: 0 <= i < k ==> Field(data, i).Success?) ==>
      ConvertFields(data) == Failure(Field(data, k).error)
    ensures |data| >= 3 ==> ConvertFields(data) == ConvertFields(data[..3])
  {
    if |data| >= 3 {
      assert forall k :: 0 <= k < 3 ==> data[..3][k] == data[k];
    }
  }

  /** A line of words separated by single spaces converts as its fields do. */
  lemma ConvertJoin(fs: seq<string>)
    requires |fs| >= 1 && Words(fs)
    ensures ConvertLine(Join(fs)) == ConvertFields(fs)
  {
    FieldsOfJoin(fs);
  }

  /**
   * A well-formed line: the decimal forms of three 32-bit integers, then any further words,
   * separated by single spaces, gives the city of those integers with the id one less.
   */
  lemma ConvertShown(a: int, b: int, c: int, fs: seq<string>)
    requires IntMin <= a <= IntMax && IntMin <= b <= IntMax && IntMin <= c <= IntMax
    requires |fs| >= 3 && fs[0] == ShowInt(a) && fs[1] == ShowInt(b) && fs[2] == ShowInt(c)
    requires forall k :: 3 <= k < |fs| ==> Word(fs[k])
    ensures ConvertLine(Join(fs)) == Success(CityData(Wrap32(a - 1), b, c))
  {
    ShownWords(a, b, c, fs);
    ConvertJoin(fs);
    ConvertShownFields(a, b, c, fs);
  }

  lemma ShownWords(a: int, b: int, c: int, fs: seq<string>)
    requires |fs| >= 3 && fs[0] == ShowInt(a) && fs[1] == ShowInt(b) && fs[2] == ShowInt(c)
    requires forall k :: 3 <= k < |fs| ==> Word(fs[k])
    ensures Words(fs)
  {
    ShowIntWord(a);
    ShowIntWord(b);
    ShowIntWord(c);
  }

  lemma ConvertShownFields(a: int, b: int, c: int, fs: seq<string>)
    requires IntMin <= a <= IntMax && IntMin <= b <= IntMax && IntMin <= c <= IntMax
    requires |fs| >= 3 && fs[0] == ShowInt(a) && fs[1] == ShowInt(b) && fs[2] == ShowInt(c)
    ensures ConvertFields(fs) == Success(CityData(Wrap32(a - 1), b, c))
  {
    ParseShow(a);
    ParseShow(b);
    ParseShow(c);
  }

  /** A line of white characters only is not empty, so `read` keeps it, and it cannot be a city. */
  lemma BlankLineFails(line: string)
    requires AllWhite(line)
    ensures ConvertLine(line) == Failure(NotAnInteger([]))
  {
    FieldsShape(line);
  }

  /** Runs of spaces between fields, and white padding around the line, do not change the city. */
  lemma ConvertLineSpacing(w1: string, a: string, k: nat, b: string, w2: string)
    requires k >= 1 && AllWhite(w1) && AllWhite(w2)
    ensures ConvertLine(w1 + a + Spaces(k) + b + w2) == ConvertLine(a + [' '] + b)
  {
    FieldsRun(a, k, b);
    var line := a + Spaces(k) + b;
    assert w1 + a + Spaces(k) + b + w2 == w1 + line + w2;
    TrimPadding(w1, line, w2);
  }

  /** Keeping the non-empty lines of a concatenation is keeping them of each part. */
  lemma {:induction false} NonEmptyLinesAppend(a: seq<string>, b: seq<string>)
    ensures NonEmptyLines(a + b) == NonEmptyLines(a) + NonEmptyLines(b)
    decreases |a|
  {
    if a == [] {
      assert a + b == b;
    } else {
      assert (a + b)[0] == a[0] && (a + b)[1..] == a[1..] + b;
      NonEmptyLinesAppend(a[1..], b);
    }
  }

  /** Exactly the empty lines are dropped: every other line keeps its number of occurrences. */
  lemma {:induction false} NonEmptyLinesCount(lines: seq<string>)
    ensures multiset(NonEmptyLines(lines)) == multiset(lines)[[] := 0]
    decreases |lines|
  {
    if lines != [] {
      NonEmptyLinesCount(lines[1..]);
      assert lines == [lines[0]] + lines[1..];
    }
  }

  /**
   * Collecting succeeds exactly when every result is a success, giving their cities in order.
   */
  lemma {:induction false} CollectSpec(results: seq<Result<CityData, ParseError>>)
    ensures Collect(results).Success? <==> forall k :: 0 <= k < |results| ==> results[k].Success?
    ensures Collect(results).Success? ==>
      && |Collect(results).value| == |results|
      && forall k :: 0 <= k < |results| ==> Collect(results).value[k] == results[k].value
    decreases |results|
  {
    if results != [] {
      var rest := results[1..];
      CollectSpec(rest);
      assert forall k :: 1 <= k < |results| ==> results[k] == rest[k - 1];
    }
  }

  /** When collecting fails, the error is that of the first failed result. */
  lemma {:induction false} CollectFirstError(results: seq<Result<CityData, ParseError>>) returns (k: nat)
    requires Collect(results).Failure?
    ensures k < |results| && results[k] == Failure(Collect(results).error)
    ensures forall i :: 0 <= i < k ==> results[i].Success?
    decreases |results|
  {
    if results[0].Failure? {
      k := 0;
    } else {
      var rest := results[1..];
      var k' := CollectFirstError(rest);
      k := k' + 1;
      assert results[k] == rest[k'];
      forall i | 0 <= i < k ensures results[i].Success? {
        if i > 0 { assert results[i] == rest[i - 1]; }
      }
    }
  }

  /**
   * Reading with any conversion succeeds exactly when every non-empty line converts, giving one
   * city per non-empty line in file order.
   */
  lemma ReadWithSpec(lines: seq<string>, convert: string -> Result<CityData, ParseError>)
    ensures ReadWith(lines, convert).Success? ==>
      forall k :: 0 <= k < |NonEmptyLines(lines)| ==> convert(NonEmptyLines(lines)[k]).Success?
    ensures (forall k :: 0 <= k < |NonEmptyLines(lines)| ==> convert(NonEmptyLines(lines)[k]).Success?) ==>
      ReadWith(lines, convert).Success?
    ensures ReadWith(lines, convert).Success? ==>
      && |ReadWith(lines, convert).value| == |NonEmptyLines(lines)|
      && forall k :: 0 <= k < |NonEmptyLines(lines)| ==>
           ReadWith(lines, convert).value[k] == convert(NonEmptyLines(lines)[k]).value
  {
    var kept := NonEmptyLines(lines);
    var results := ConvertEach(kept, convert);
    assert ReadWith(lines, convert) == Collect(results);
    CollectSpec(results);
    forall k | 0 <= k < |kept| ensures results[k].Success? <==> convert(kept[k]).Success? {
      assert results[k] == convert(kept[k]);
    }
  }

  /** The error of a failed read is that of its first non-empty line that does not convert. */
  lemma ReadWithFirstError(lines: seq<string>, convert: string -> Result<CityData, ParseError>) returns (k: nat)
    requires ReadWith(lines, convert).Failure?
    ensures var kept := NonEmptyLines(lines);
      && k < |kept| && convert(kept[k]) == Failure(ReadWith(lines, convert).error)
      && forall i :: 0 <= i < k ==> convert(kept[i]).Success?
  {
    k := CollectFirstError(ConvertEach(NonEmptyLines(lines), convert));
  }

  /**
   * `read` succeeds exactly when every non-empty line converts, giving one city per non-empty
   * line in file order.
   */
  lemma ReadSpec(lines: seq<string>)
    ensures var kept := NonEmptyLines(lines);
      && (Read(lines).Success? <==> forall k :: 0 <= k < |kept| ==> ConvertLine(kept[k]).Success?)
      && (Read(lines).Success? ==>
            && |Read(lines).value| == |kept|
            && forall k :: 0 <= k < |kept| ==> Read(lines).value[k] == ConvertLine(kept[k]).value)
  {
    ReadWithSpec(lines, ConvertLine);
  }

  /** The error of a failed `read` is that of its first non-empty line that does not convert. */
  lemma ReadFirstError(lines: seq<string>) returns (k: nat)
    requires Read(lines).Failure?
    ensures var kept := NonEmptyLines(lines);
      && k < |kept| && ConvertLine(kept[k]) == Failure(Read(lines).error)
      && forall i :: 0 <= i < k ==> ConvertLine(kept[i]).Success?
  {
    k := ReadWithFirstError(lines, ConvertLine);
  }
}
