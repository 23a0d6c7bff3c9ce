/**
 * Value normalisation of the gdp column (assignment5.py lines 63-66).
 *
 * Three regular-expression substitutions run in order over every cell, then the
 * column is converted to integers:
 *   1. `(\d)\.(\d)k` -> `\1\2\\00`  (leftmost, non-overlapping matches)
 *   2. `k`           -> `000`       (every occurrence)
 *   3. `\\`          -> ``          (every occurrence)
 *   4. `int(...)`, which fails unless the result is a digit string.
 * The pattern of pass 1 has a fixed length of four characters, so the regex
 * engine's left-to-right search is a plain scan: at each position either the
 * four characters match and are rewritten, or one character is copied.
 */
module Cleaning {
  import opened Wrappers
  import opened Digits

  /** The pattern `(\d)\.(\d)k` matches at the start of `s`. */
  predicate MatchAt(s: string) {
    |s| >= 4 && IsDigit(s[0]) && s[1] == '.' && IsDigit(s[2]) && s[3] == 'k'
  }

  /**
   * Pass 1: rewrite every leftmost non-overlapping `digit '.' digit 'k'`. The
   * only characters it brings in are the backslash and `0` of the template.
   */
  function Pass1(s: string): (r: string)
    ensures forall c :: c in r ==> c in s || c == '\\' || c == '0'
    decreases |s|
  {
    if MatchAt(s) then
      [s[0], s[2], '\\', '0', '0'] + Pass1(s[4..])
    else if |s| == 0 then []
    else [s[0]] + Pass1(s[1..])
  }

  /**
   * `re.sub` of a one-character pattern: every occurrence of `c` becomes `t`.
   * When `t` does not contain `c`, no `c` is left.
   */
  function ReplaceChar(s: string, c: char, t: string): (r: string)
    ensures c !in t ==> c !in r
    decreases |s|
  {
    if |s| == 0 then [] else (if s[0] == c then t else [s[0]]) + ReplaceChar(s[1..], c, t)
  }

  /** Pass 2: every `k` becomes `000`, so none is left. */
  function Pass2(s: string): (r: string)
    ensures 'k' !in r
  {
    ReplaceChar(s, 'k', "000")
  }

  /** Pass 3: every backslash is deleted, so none is left. */
  function Pass3(s: string): (r: string)
    ensures '\\' !in r
  {
    ReplaceChar(s, '\\', "")
  }

  /** The string the three passes leave for the integer conversion. */
  function Rewrite(s: string): string {
    Pass3(Pass2(Pass1(s)))
  }

  /** The whole cleaning of one cell; `None` is the ValueError of `astype(int)`. */
  function Normalize(s: string): Option<nat> {
    ParseNat(Rewrite(s))
  }

  // ---------------------------------------------------------------------------
  // Single-character replacement (passes 2 and 3)

  /** Replacement works character by character, so it distributes over concatenation. */
  lemma {:induction false} ReplaceAppend(x: string, y: string, c: char, t: string)
    ensures ReplaceChar(x + y, c, t) == ReplaceChar(x, c, t) + ReplaceChar(y, c, t)
    decreases |x|
  {
    if |x| > 0 {
      assert (x + y)[1..] == x[1..] + y;
      ReplaceAppend(x[1..], y, c, t);
    } else {
      assert x + y == y;
    }
  }

  /** A string without the pattern character is left unchanged. */
  lemma {:induction false} ReplaceAbsent(s: string, c: char, t: string)
    requires c !in s
    ensures ReplaceChar(s, c, t) == s
    decreases |s|
  {
    if |s| > 0 {
      assert s[0] != c;
      ReplaceAbsent(s[1..], c, t);
      assert [s[0]] + s[1..] == s;
    }
  }

  /** Pass 2 turns a `k` anywhere in the string into `000` and leaves no `k` behind. */
  lemma Pass2EveryK(x: string, y: string)
    ensures Pass2(x + ['k'] + y) == Pass2(x) + "000" + Pass2(y)
    ensures 'k' !in Pass2(x + ['k'] + y)
  {
    ReplaceAppend(x + ['k'], y, 'k', "000");
    ReplaceAppend(x, ['k'], 'k', "000");
    assert ReplaceChar(['k'], 'k', "000") == "000" + ReplaceChar([], 'k', "000");
    calc {
      Pass2(x + ['k'] + y);
      ReplaceChar(x + ['k'], 'k', "000") + Pass2(y);
      Pass2(x) + ReplaceChar(['k'], 'k', "000") + Pass2(y);
      Pass2(x) + "000" + Pass2(y);
    }
  }

  // ---------------------------------------------------------------------------
  // Pass 1

  /** Without a `.` there is no match, so pass 1 changes nothing. */
  lemma {:induction false} Pass1NoDot(s: string)
    requires '.' !in s
    ensures Pass1(s) == s
    decreases |s|
  {
    if |s| > 0 {
      if |s| >= 4 {
        assert s[1] != '.';
      }
      Pass1NoDot(s[1..]);
      assert [s[0]] + s[1..] == s;
    }
  }

  /** The pattern `(\d)\.(\d)k` matches nowhere in `s`. */
  predicate NoMatch(s: string) {
    forall p :: 0 <= p < |s| ==> !MatchAt(s[p..])
  }

  /** Where the pattern matches nowhere, pass 1 returns the text unchanged. */
  lemma {:induction false} Pass1NoMatch(s: string)
    requires NoMatch(s)
    ensures Pass1(s) == s
    decreases |s|
  {
    if |s| > 0 {
      assert s[0..] == s;
      forall p | 0 <= p < |s[1..]| ensures !MatchAt(s[1..][p..]) {
        assert s[1..][p..] == s[p + 1..];
      }
      Pass1NoMatch(s[1..]);
      assert [s[0]] + s[1..] == s;
    }
  }

  /**
   * A run of digits that is not followed by `.` cannot start a match, so pass 1
   * copies it and carries on after it.
   */
  lemma {:induction false} Pass1DigitPrefix(p: string, x: string)
    requires AllDigits(p)
    requires |x| == 0 || x[0] != '.'
    ensures Pass1(p + x) == p + Pass1(x)
    decreases |p|
  {
    if |p| > 0 {
      var s := p + x;
      if |s| >= 2 {
        assert s[1] == if |p| > 1 then p[1] else x[0];
      }
      assert !MatchAt(s);
      var tail := p[1..];
      assert s[1..] == tail + x;
      Pass1DigitPrefix(tail, x);
      calc {
        Pass1(s);
        [p[0]] + Pass1(tail + x);
        [p[0]] + (tail + Pass1(x));
        ([p[0]] + tail) + Pass1(x);
        { assert [p[0]] + tail == p; }
        p + Pass1(x);
      }
    } else {
      assert p + x == x;
    }
  }

  // ---------------------------------------------------------------------------
  // What the whole normalisation does

  /** Digits are untouched by passes 2 and 3. */
  lemma DigitsSurviveCleaning(d: string)
    requires AllDigits(d)
    ensures Pass2(d) == d && Pass3(d) == d
  {
    assert 'k' !in d && '\\' !in d by {
      forall i | 0 <= i < |d| ensures d[i] != 'k' && d[i] != '\\' {
        assert IsDigit(d[i]);
      }
    }
    ReplaceAbsent(d, 'k', "000");
    ReplaceAbsent(d, '\\', "");
  }

  /** A plain digit string passes the three rewrites unchanged and parses to its value. */
  lemma PlainDigits(s: string)
    requires AllDigits(s)
    ensures Rewrite(s) == s
    ensures Normalize(s) == if |s| == 0 then None else Some(ValueOf(s))
  {
    assert '.' !in s by {
      forall i | 0 <= i < |s| ensures s[i] != '.' {
        assert IsDigit(s[i]);
      }
    }
    Pass1NoDot(s);
    DigitsSurviveCleaning(s);
  }

  /**
   * A match anywhere in the string is rewritten, and the text on either side
   * is scanned as if on its own: since `a` and `b` are digits, no match can
   * overlap the start of this one.
   */
  lemma {:induction false} Pass1Match(u: string, a: char, b: char, v: string)
    requires IsDigit(a) && IsDigit(b)
    ensures Pass1(u + [a, '.', b, 'k'] + v) == Pass1(u) + [a, b, '\\', '0', '0'] + Pass1(v)
    decreases |u|
  {
    var m := [a, '.', b, 'k'];
    var s := u + m + v;
    if |u| == 0 {
      assert s == m + v && MatchAt(s) && s[4..] == v;
    } else if MatchAt(u) {
      assert s[..4] == u[..4] && MatchAt(s);
      assert s[4..] == u[4..] + m + v;
      Pass1Match(u[4..], a, b, v);
    } else {
      assert !MatchAt(s) by {
        if |u| >= 4 {
          assert s[..4] == u[..4];
        } else if |u| == 1 {
          assert s[1] == a;
        } else if |u| == 2 {
          assert s[3] == '.';
        } else {
          assert s[3] == a;
        }
      }
      assert s[1..] == u[1..] + m + v;
      Pass1Match(u[1..], a, b, v);
    }
  }

  /**
   * The three passes turn a match anywhere in the string into its two digits
   * and `00`, and treat the text on either side independently.
   */
  lemma MatchRewrite(u: string, a: char, b: char, v: string)
    requires IsDigit(a) && IsDigit(b)
    ensures Rewrite(u + [a, '.', b, 'k'] + v) == Rewrite(u) + [a, b, '0', '0'] + Rewrite(v)
  {
    Pass1Match(u, a, b, v);
    Pass2KeepsMatch(Pass1(u), a, b, Pass1(v));
    Pass3DropsBackslash(Pass2(Pass1(u)), a, b, Pass2(Pass1(v)));
  }

  /** Pass 2 leaves what pass 1 made of a match alone and works on either side of it. */
  lemma Pass2KeepsMatch(x: string, a: char, b: char, y: string)
    requires IsDigit(a) && IsDigit(b)
    ensures Pass2(x + [a, b, '\\', '0', '0'] + y) == Pass2(x) + [a, b, '\\', '0', '0'] + Pass2(y)
  {
    var t := [a, b, '\\', '0', '0'];
    assert 'k' !in t;
    calc {
      Pass2(x + t + y);
      { ReplaceAppend(x + t, y, 'k', "000"); }
      Pass2(x + t) + Pass2(y);
      { ReplaceAppend(x, t, 'k', "000"); ReplaceAbsent(t, 'k', "000"); }
      Pass2(x) + t + Pass2(y);
    }
  }

  /** Pass 3 drops the backslash of a rewritten match and works on either side of it. */
  lemma Pass3DropsBackslash(x: string, a: char, b: char, y: string)
    requires IsDigit(a) && IsDigit(b)
    ensures Pass3(x + [a, b, '\\', '0', '0'] + y) == Pass3(x) + [a, b, '0', '0'] + Pass3(y)
  {
    var t, ab, zeros := [a, b, '\\', '0', '0'], [a, b], ['0', '0'];
    assert Pass3(t) == ab + zeros by {
      assert t == ab + (['\\'] + zeros);
      assert '\\' !in ab && '\\' !in zeros;
      ReplaceAbsent(ab, '\\', "");
      ReplaceAbsent(zeros, '\\', "");
      assert ReplaceChar(['\\'], '\\', "") == [];
      ReplaceAppend(['\\'], zeros, '\\', "");
      ReplaceAppend(ab, ['\\'] + zeros, '\\', "");
    }
    calc {
      Pass3(x + t + y);
      { ReplaceAppend(x + t, y, '\\', ""); }
      Pass3(x + t) + Pass3(y);
      { ReplaceAppend(x, t, '\\', ""); }
      Pass3(x) + (ab + zeros) + Pass3(y);
      { assert ab + zeros == [a, b, '0', '0']; }
      Pass3(x) + [a, b, '0', '0'] + Pass3(y);
    }
  }

  /** The three passes turn `<digits><a>.<b>k` into `<digits><a><b>00`. */
  lemma DecimalRewrite(p: string, a: char, b: char)
    requires AllDigits(p) && IsDigit(a) && IsDigit(b)
    ensures Rewrite(p + [a, '.', b, 'k']) == p + [a, b, '0', '0']
  {
    MatchRewrite(p, a, b, []);
    assert p + [a, '.', b, 'k'] + [] == p + [a, '.', b, 'k'];
    PlainDigits(p);
    PlainDigits([]);
  }

  /**
   * `<digits><a>.<b>k` gains two zeros, not three: the digits before the point,
   * the digit after it, then `00`. So `1.2k` is 1200 and `12.5k` is 12500.
   */
  lemma DecimalThousands(p: string, a: char, b: char)
    requires AllDigits(p) && IsDigit(a) && IsDigit(b)
    ensures Normalize(p + [a, '.', b, 'k']) == Some(100 * (10 * (10 * ValueOf(p) + DigitValue(a)) + DigitValue(b)))
  {
    DecimalRewrite(p, a, b);
    ValueOfSnoc(p, a);
    ValueOfSnoc(p + [a], b);
    var d := p + [a] + [b];
    ValueOfSnoc(d, '0');
    ValueOfSnoc(d + ['0'], '0');
    assert d + ['0'] + ['0'] == p + [a, b, '0', '0'];
  }

  /** Pass 2 on a lone `k`. */
  lemma Pass2OfK()
    ensures Pass2(['k']) == "000"
  {
  }

  /** The three passes turn `<digits>k` into `<digits>000`. */
  lemma BareRewrite(p: string)
    requires AllDigits(p)
    ensures Rewrite(p + ['k']) == p + "000"
  {
    ValueOfSnoc(p, '0');
    ValueOfSnoc(p + ['0'], '0');
    ValueOfSnoc(p + ['0'] + ['0'], '0');
    var r := p + ['0'] + ['0'] + ['0'];
    assert r == p + "000";
    calc {
      Rewrite(p + ['k']);
      Pass3(Pass2(Pass1(p + ['k'])));
      { Pass1DigitPrefix(p, ['k']); Pass1NoDot(['k']); }
      Pass3(Pass2(p + ['k']));
      { ReplaceAppend(p, ['k'], 'k', "000"); }
      Pass3(Pass2(p) + Pass2(['k']));
      { DigitsSurviveCleaning(p); Pass2OfK(); }
      Pass3(p + "000");
      { DigitsSurviveCleaning(r); }
      p + "000";
    }
  }

  /** `<digits>k` is that number of thousands, e.g. `45k` is 45000 (and a bare `k` is 0). */
  lemma BareThousands(p: string)
    requires AllDigits(p)
    ensures Normalize(p + ['k']) == Some(1000 * ValueOf(p))
  {
    BareRewrite(p);
    var v := ValueOf(p);
    var p1 := p + ['0'];
    var p2 := p1 + ['0'];
    var p3 := p2 + ['0'];
    ValueOfSnoc(p, '0');
    ValueOfSnoc(p1, '0');
    ValueOfSnoc(p2, '0');
    assert ValueOf(p3) == 1000 * v by {
      assert DigitValue('0') == 0;
      assert ValueOf(p1) == 10 * v;
      assert ValueOf(p2) == 100 * v;
    }
    assert p3 == p + "000";
  }

  /** A character that passes 2 and 3 keep and the parse accepts. */
  predicate Cleanable(c: char) {
    IsDigit(c) || c == 'k' || c == '\\'
  }

  /** What passes 2 and 3 make of one character. */
  function CleanChar(c: char): string {
    if c == 'k' then "000" else if c == '\\' then "" else [c]
  }

  /** Passes 2 and 3 work on the first character independently of the rest. */
  lemma CleanCons(c: char, rest: string)
    ensures Pass3(Pass2([c] + rest)) == CleanChar(c) + Pass3(Pass2(rest))
  {
    ReplaceAppend([c], rest, 'k', "000");
    assert Pass2([c]) == (if c == 'k' then "000" else [c]) + ReplaceChar([], 'k', "000");
    var h := Pass2([c]);
    ReplaceAppend(h, Pass2(rest), '\\', "");
    if c == '\\' {
      assert Pass3(h) == "" + ReplaceChar([], '\\', "");
    } else {
      assert '\\' !in h;
      ReplaceAbsent(h, '\\', "");
    }
  }

  lemma AllDigitsAppend(u: string, t: string)
    ensures AllDigits(u + t) <==> AllDigits(u) && AllDigits(t)
  {
    if AllDigits(u + t) {
      forall i | 0 <= i < |t| ensures IsDigit(t[i]) {
        assert (u + t)[|u| + i] == t[i];
      }
      forall i | 0 <= i < |u| ensures IsDigit(u[i]) {
        assert (u + t)[i] == u[i];
      }
    }
  }

  /**
   * Passes 2 and 3 yield a digit string exactly when every character left by
   * pass 1 is a digit, `k` or backslash.
   */
  lemma {:induction false} CleanDigits(x: string)
    ensures AllDigits(Pass3(Pass2(x))) <==> forall i :: 0 <= i < |x| ==> Cleanable(x[i])
    decreases |x|
  {
    if |x| > 0 {
      var c, rest := x[0], x[1..];
      assert x == [c] + rest;
      CleanCons(c, rest);
      CleanDigits(rest);
      AllDigitsAppend(CleanChar(c), Pass3(Pass2(rest)));
      assert AllDigits(CleanChar(c)) <==> Cleanable(c);
      assert (forall i :: 0 <= i < |x| ==> Cleanable(x[i])) <==>
             Cleanable(c) && forall i :: 0 <= i < |rest| ==> Cleanable(rest[i]) by {
        forall i | 0 <= i < |rest| ensures rest[i] == x[i + 1] { }
      }
    }
  }

  /** Passes 2 and 3 yield the empty string exactly when pass 1 left only backslashes. */
  lemma {:induction false} CleanEmpty(x: string)
    ensures |Pass3(Pass2(x))| == 0 <==> forall i :: 0 <= i < |x| ==> x[i] == '\\'
    decreases |x|
  {
    if |x| > 0 {
      var c, rest := x[0], x[1..];
      assert x == [c] + rest;
      CleanCons(c, rest);
      CleanEmpty(rest);
      assert (forall i :: 0 <= i < |x| ==> x[i] == '\\') <==>
             c == '\\' && forall i :: 0 <= i < |rest| ==> rest[i] == '\\' by {
        forall i | 0 <= i < |rest| ensures rest[i] == x[i + 1] { }
      }
    }
  }

  /** Every character `x` holds is one that passes 2 and 3 keep or turn into digits. */
  predicate AllCleanable(x: string) {
    forall i :: 0 <= i < |x| ==> Cleanable(x[i])
  }

  /** `x` holds a character that pass 3 does not delete. */
  predicate SomeKept(x: string) {
    exists i :: 0 <= i < |x| && x[i] != '\\'
  }

  /**
   * Normalisation succeeds exactly when pass 1 leaves only digits, `k` and
   * backslashes, not all of them backslashes; otherwise `astype(int)` raises.
   */
  lemma NormalizeSucceeds(s: string)
    ensures Normalize(s).Some? <==> AllCleanable(Pass1(s)) && SomeKept(Pass1(s))
  {
    var x := Pass1(s);
    var y := Pass3(Pass2(x));
    CleanDigits(x);
    CleanEmpty(x);
    assert AllDigits(y) == AllCleanable(x);
    assert (|y| > 0) == SomeKept(x) by {
      if SomeKept(x) {
        var i :| 0 <= i < |x| && x[i] != '\\';
      }
    }
    assert Normalize(s) == ParseNat(y);
  }


  /** `1.2k` is 1200. */
  lemma ExampleOnePointTwoK(s: string)
    requires s == "1.2k"
    ensures Normalize(s) == Some(1200)
  {
    assert s == [] + ['1', '.', '2', 'k'];
    DecimalThousands([], '1', '2');
  }

  /** `12.5k` is 12500: the match starts at the second digit. */
  lemma ExampleTwelvePointFiveK(s: string)
    requires s == "12.5k"
    ensures Normalize(s) == Some(12500)
  {
    assert s == ['1'] + ['2', '.', '5', 'k'];
    DecimalThousands(['1'], '2', '5');
    ValueOfSnoc([], '1');
    assert [] + ['1'] == ['1'];
  }

  /** `45k` is 45000. */
  lemma ExampleFortyFiveK(s: string)
    requires s == "45k"
    ensures Normalize(s) == Some(45000)
  {
    var p := ['4', '5'];
    ValueOfSnoc([], '4');
    ValueOfSnoc(['4'], '5');
    assert [] + ['4'] == ['4'] && ['4'] + ['5'] == p;
    calc {
      Normalize(s);
      { assert s == p + ['k']; }
      Normalize(p + ['k']);
      { BareThousands(p); }
      Some(1000 * ValueOf(p));
      Some(45000);
    }
  }

  /** `950` is 950. */
  lemma ExampleNineFifty(s: string)
    requires s == "950"
    ensures Normalize(s) == Some(950)
  {
    assert AllDigits(s) by { assert IsDigit(s[0]) && IsDigit(s[1]) && IsDigit(s[2]); }
    PlainDigits(s);
    ValueOfSnoc([], '9');
    ValueOfSnoc(['9'], '5');
    ValueOfSnoc(['9', '5'], '0');
    assert [] + ['9'] == ['9'] && ['9'] + ['5'] == ['9', '5'] && ['9', '5'] + ['0'] == s;
  }

  /** `1.2k1.2k` holds two matches, and each becomes `1200`. */
  lemma ExampleTwoMatches(s: string)
    requires s == "1.2k1.2k"
    ensures Rewrite(s) == "12001200"
  {
    var m := ['1', '.', '2', 'k'];
    var twelve := ['1', '2', '0', '0'];
    calc {
      Rewrite(s);
      { assert s == [] + m + m; }
      Rewrite([] + m + m);
      { MatchRewrite([], '1', '2', m); }
      Rewrite([]) + twelve + Rewrite(m);
      { PlainDigits([]); DecimalRewrite([], '1', '2'); assert [] + m == m; }
      [] + twelve + ([] + twelve);
    }
  }

  /** `1.5` has a dot but no `k`: every pass leaves it alone and the conversion fails. */
  lemma ExampleDecimalRejected(s: string)
    requires s == "1.5"
    ensures Rewrite(s) == "1.5" && Normalize(s) == None
  {
    assert NoMatch(s);
    Pass1NoMatch(s);
    ReplaceAbsent(s, 'k', "000");
    ReplaceAbsent(s, '\\', "");
    assert !IsDigit(s[1]);
  }

  /** `1.23k` has no match, becomes `1.23000`, and the integer conversion raises. */
  lemma ExampleTwoDecimalsRejected(s: string)
    requires s == "1.23k"
    ensures Rewrite(s) == "1.23000" && Normalize(s) == None
  {
    var body := ['1', '.', '2', '3'];
    assert NoMatch(s) by {
      forall p | 0 <= p < |s| ensures !MatchAt(s[p..]) {
        if p == 0 {
          assert s[0..][3] == '3';
        } else if p == 1 {
          assert s[1..][0] == '.';
        }
      }
    }
    Pass1NoMatch(s);
    var r := body + "000";
    calc {
      Rewrite(s);
      Pass3(Pass2(Pass1(s)));
      Pass3(Pass2(s));
      { assert s == body + ['k'] + []; }
      Pass3(Pass2(body + ['k'] + []));
      { Pass2EveryK(body, []); }
      Pass3(Pass2(body) + "000" + Pass2([]));
      { assert 'k' !in body; ReplaceAbsent(body, 'k', "000");
        assert Pass2([]) == [];
        assert body + "000" + [] == r; }
      Pass3(r);
      { assert '\\' !in r; ReplaceAbsent(r, '\\', ""); }
      r;
    }
    assert r == "1.23000";
    assert !IsDigit(r[1]);
  }
}
