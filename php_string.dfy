/** The PHP string built-ins the extractor relies on: `trim` with its default character
    list, `explode` and `implode` on a one-character delimiter, the truthiness of a string
    (`if ($s)`, `empty($s)`) and the conversion of an integer to its decimal string. */
module PhpString {

  /** The characters `trim` strips by default: space, tab, line feed, carriage return,
      NUL and vertical tab. */
  predicate IsTrimChar(c: char) {
    c == ' ' || c == '\t' || c == '\n' || c == '\r' || c as int == 0 || c as int == 0x0B
  }

  predicate AllTrimChars(s: string) {
    forall i :: 0 <= i < |s| ==> IsTrimChar(s[i])
  }

  /** Neither the first nor the last character of `s` is one `trim` would strip. */
  predicate NoEdgeTrimChars(s: string) {
    s == [] || (!IsTrimChar(s[0]) && !IsTrimChar(s[|s| - 1]))
  }

  /** `r` sits at offset `i` of `s`, and everything around it is strippable. */
  predicate Frames(s: string, i: nat, r: string) {
    && i + |r| <= |s|
    && s[i..i + |r|] == r
    && AllTrimChars(s[..i])
    && AllTrimChars(s[i + |r|..])
  }

  /** A string is falsy in PHP (`if ($s)` fails, `empty($s)` holds) exactly when it is
      empty or the single character "0". */
  predicate IsFalsy(s: string) {
    |s| == 0 || (|s| == 1 && s[0] == '0')
  }

  function TrimLeft(s: string): (r: string)
    ensures |r| <= |s| && r == s[|s| - |r|..]
    ensures AllTrimChars(s[..|s| - |r|])
    ensures r == [] || !IsTrimChar(r[0])
  {
    if s != [] && IsTrimChar(s[0]) then TrimLeft(s[1..]) else s
  }

  function TrimRight(s: string): (r: string)
    ensures |r| <= |s| && r == s[..|r|]
    ensures AllTrimChars(s[|r|..])
    ensures r == [] || !IsTrimChar(r[|r| - 1])
  {
    if s != [] && IsTrimChar(s[|s| - 1]) then
      var r := TrimRight(s[..|s| - 1]);
      assert s[|r|..] == s[..|s| - 1][|r|..] + [s[|s| - 1]];
      r
    else s
  }

  /** PHP `trim($s)`: the longest infix of `s` that neither starts nor ends with a
      strippable character, obtained by removing strippable characters from both ends. */
  function Trim(s: string): (r: string)
    ensures NoEdgeTrimChars(r)
    ensures exists i: nat :: Frames(s, i, r)
  {
    var t := TrimLeft(s);
    var r := TrimRight(t);
    var i := |s| - |t|;
    assert s[i..] == t;
    assert s[i..i + |r|] == r;
    assert s[i + |r|..] == t[|r|..];
    assert Frames(s, i, r);
    r
  }

  lemma {:induction false} TrimLeftOfPadded(p: string, u: string)
    requires AllTrimChars(p)
    requires u == [] || !IsTrimChar(u[0])
    ensures TrimLeft(p + u) == u
  {
    if p != [] {
      assert (p + u)[1..] == p[1..] + u;
      TrimLeftOfPadded(p[1..], u);
    } else {
      assert p + u == u;
    }
  }

  lemma {:induction false} TrimRightOfPadded(v: string, q: string)
    requires AllTrimChars(q)
    requires v == [] || !IsTrimChar(v[|v| - 1])
    ensures TrimRight(v + q) == v
  {
    if q != [] {
      assert (v + q)[..|v + q| - 1] == v + q[..|q| - 1];
      TrimRightOfPadded(v, q[..|q| - 1]);
    } else {
      assert v + q == v;
    }
  }

  /** `trim` is characterised by its result: whenever `s` is a clean string `r` padded on
      both sides by strippable characters only, `trim(s)` is exactly `r`. */
  lemma {:induction false} TrimOfPadded(p: string, r: string, q: string)
    requires AllTrimChars(p) && AllTrimChars(q)
    requires NoEdgeTrimChars(r)
    ensures Trim(p + r + q) == r
  {
    if r == [] {
      assert p + r + q == (p + q) + [];
      assert AllTrimChars(p + q) by {
        forall i | 0 <= i < |p + q| ensures IsTrimChar((p + q)[i]) {
          if i < |p| { assert (p + q)[i] == p[i]; } else { assert (p + q)[i] == q[i - |p|]; }
        }
      }
      TrimLeftOfPadded(p + q, []);
    } else {
      assert p + r + q == p + (r + q);
      TrimLeftOfPadded(p, r + q);
      TrimRightOfPadded(r, q);
    }
  }

  /** A string that already has no strippable character at either end is its own trim. */
  lemma TrimOfClean(s: string)
    requires NoEdgeTrimChars(s)
    ensures Trim(s) == s
  {
    assert [] + s + [] == s;
    TrimOfPadded([], s, []);
  }

  /** `trim` is idempotent. */
  lemma TrimIdempotent(s: string)
    ensures Trim(Trim(s)) == Trim(s)
  {
    TrimOfClean(Trim(s));
  }

  /** Number of occurrences of `c` in `s`. */
  function Count(c: char, s: string): nat {
    if s == [] then 0 else (if s[0] == c then 1 else 0) + Count(c, s[1..])
  }

  lemma {:induction false} CountConcat(c: char, a: string, b: string)
    ensures Count(c, a + b) == Count(c, a) + Count(c, b)
  {
    if a != [] {
      assert (a + b)[1..] == a[1..] + b;
      CountConcat(c, a[1..], b);
    } else {
      assert a + b == b;
    }
  }

  lemma {:induction false} CountOfTrimChars(c: char, s: string)
    requires !IsTrimChar(c) && AllTrimChars(s)
    ensures Count(c, s) == 0
  {
    if s != [] {
      CountOfTrimChars(c, s[1..]);
    }
  }

  lemma CountOfFramed(c: char, s: string, i: nat, r: string)
    requires !IsTrimChar(c) && Frames(s, i, r)
    ensures Count(c, r) == Count(c, s)
  {
    var pre, post := s[..i], s[i + |r|..];
    assert s[i..] == r + post;
    assert s == pre + s[i..];
    CountConcat(c, pre, s[i..]);
    CountConcat(c, r, post);
    CountOfTrimChars(c, pre);
    CountOfTrimChars(c, post);
  }

  /** Trimming never removes a character outside the strip set, so such a character occurs
      as often in `trim(s)` as in `s`. */
  lemma TrimKeepsCount(c: char, s: string)
    requires !IsTrimChar(c)
    ensures Count(c, Trim(s)) == Count(c, s)
  {
    var r := Trim(s);
    var i: nat :| Frames(s, i, r);
    CountOfFramed(c, s, i, r);
  }

  /** PHP `explode($sep, $s)` for a one-character separator: the maximal pieces between
      separators, in order; the empty string gives one empty piece. */
  function Explode(sep: char, s: string): (pieces: seq<string>)
    ensures |pieces| >= 1
  {
    if s == [] then [[]]
    else
      var rest := Explode(sep, s[1..]);
      if s[0] == sep then [[]] + rest
      else [[s[0]] + rest[0]] + rest[1..]
  }

  /** PHP `implode($sep, $pieces)`. */
  function Implode(sep: char, pieces: seq<string>): string {
    if |pieces| == 0 then []
    else if |pieces| == 1 then pieces[0]
    else pieces[0] + [sep] + Implode(sep, pieces[1..])
  }

  lemma ImplodeConsHead(sep: char, c: char, pieces: seq<string>)
    requires |pieces| >= 1
    ensures Implode(sep, [[c] + pieces[0]] + pieces[1..]) == [c] + Implode(sep, pieces)
  {
    var ps := [[c] + pieces[0]] + pieces[1..];
    assert ps[1..] == pieces[1..];
  }

  /** Joining the pieces of `explode` with the same separator gives back the input. */
  lemma {:induction false} ImplodeExplode(sep: char, s: string)
    ensures Implode(sep, Explode(sep, s)) == s
  {
    if s != [] {
      var rest := Explode(sep, s[1..]);
      ImplodeExplode(sep, s[1..]);
      if s[0] == sep {
        assert ([[]] + rest)[1..] == rest;
        assert Implode(sep, [[]] + rest) == [] + [sep] + Implode(sep, rest);
      } else {
        ImplodeConsHead(sep, s[0], rest);
      }
      assert s == [s[0]] + s[1..];
    }
  }

  /** `explode` yields one more piece than there are separators. */
  lemma {:induction false} ExplodeLength(sep: char, s: string)
    ensures |Explode(sep, s)| == Count(sep, s) + 1
  {
    if s != [] {
      ExplodeLength(sep, s[1..]);
    }
  }

  /** No piece of `explode` contains the separator. */
  lemma {:induction false} ExplodePiecesHaveNoSeparator(sep: char, s: string)
    ensures forall k :: 0 <= k < |Explode(sep, s)| ==> sep !in Explode(sep, s)[k]
  {
    if s != [] {
      ExplodePiecesHaveNoSeparator(sep, s[1..]);
    }
  }

  lemma {:induction false} ExplodeAfterPiece(sep: char, a: string, t: string)
    requires sep !in a
    ensures Explode(sep, a + t) == [a + Explode(sep, t)[0]] + Explode(sep, t)[1..]
  {
    if a == [] {
      assert a + t == t;
      assert a + Explode(sep, t)[0] == Explode(sep, t)[0];
      assert Explode(sep, t) == [Explode(sep, t)[0]] + Explode(sep, t)[1..];
    } else {
      assert (a + t)[1..] == a[1..] + t;
      ExplodeAfterPiece(sep, a[1..], t);
      assert a + Explode(sep, t)[0] == [a[0]] + (a[1..] + Explode(sep, t)[0]);
    }
  }

  /** Splitting a join of separator-free pieces gives back those pieces. */
  lemma {:induction false} ExplodeImplode(sep: char, pieces: seq<string>)
    requires |pieces| >= 1
    requires forall k :: 0 <= k < |pieces| ==> sep !in pieces[k]
    ensures Explode(sep, Implode(sep, pieces)) == pieces
  {
    if |pieces| == 1 {
      ExplodeAfterPiece(sep, pieces[0], []);
      assert pieces[0] + [] == pieces[0];
    } else {
      var tail := Implode(sep, pieces[1..]);
      ExplodeImplode(sep, pieces[1..]);
      assert pieces[0] + [sep] + tail == pieces[0] + ([sep] + tail);
      ExplodeAfterPiece(sep, pieces[0], [sep] + tail);
      assert ([sep] + tail)[0] == sep && ([sep] + tail)[1..] == tail;
      assert Explode(sep, [sep] + tail) == [[]] + pieces[1..];
      assert pieces[0] + [] == pieces[0];
      assert pieces == [pieces[0]] + pieces[1..];
    }
  }

  /** The truthy strings are exactly those other than "" and "0". */
  lemma IsFalsyExactly(s: string)
    ensures IsFalsy(s) <==> s == "" || s == "0"
  {
    if |s| == 1 && s[0] == '0' {
      assert s == "0";
    }
  }

  function Digit(n: nat): (c: char)
    requires n < 10
    ensures '0' <= c <= '9'
    ensures (c == '0') == (n == 0)
  {
    ('0' as int + n) as char
  }

  predicate AllDigits(s: string) {
    forall k :: 0 <= k < |s| ==> '0' <= s[k] <= '9'
  }

  /** The number a string of decimal digits denotes. */
  function DigitsValue(s: string): nat
    requires AllDigits(s)
  {
    if s == [] then 0 else DigitsValue(s[..|s| - 1]) * 10 + (s[|s| - 1] as int - '0' as int)
  }

  /** The decimal digits of `n`, with no leading zero. */
  function NatToString(n: nat): (r: string)
    ensures |r| > 0 && AllDigits(r)
    ensures (r[0] == '0') == (n == 0)
    ensures n == 0 ==> |r| == 1
  {
    if n < 10 then [Digit(n)] else NatToString(n / 10) + [Digit(n % 10)]
  }

  /** The digits denote `n` again. */
  lemma {:induction false} NatToStringValue(n: nat)
    ensures DigitsValue(NatToString(n)) == n
  {
    var r := NatToString(n);
    if n >= 10 {
      assert r[..|r| - 1] == NatToString(n / 10);
      NatToStringValue(n / 10);
    }
  }

  /** PHP's conversion of an integer to a string: a minus sign exactly when it is
      negative, then the digits of its magnitude. Such a string never needs trimming. */
  function IntToString(i: int): (r: string)
    ensures |r| > 0 && (r[0] == '-') == (i < 0)
    ensures r[0] == '-' ==> |r| > 1 && AllDigits(r[1..]) && r[1] != '0'
    ensures r[0] != '-' ==> AllDigits(r) && (r[0] == '0' ==> r == "0")
    ensures NoEdgeTrimChars(r)
  {
    if i < 0 then "-" + NatToString(-i) else NatToString(i)
  }

  /** The string denotes `i`: its magnitude is the value of its digits. */
  lemma IntToStringValue(i: int)
    ensures i < 0 ==> DigitsValue(IntToString(i)[1..]) == -i
    ensures i >= 0 ==> DigitsValue(IntToString(i)) == i
  {
    if i < 0 {
      var m: nat := -i;
      var digits := NatToString(m);
      assert IntToString(i) == "-" + digits;
      assert ("-" + digits)[1..] == digits;
      NatToStringValue(m);
    } else {
      NatToStringValue(i);
    }
  }
}
