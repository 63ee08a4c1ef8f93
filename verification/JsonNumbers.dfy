/**
 The numbers of the parser's language, and what its digit loops find of them.

 `Lexeme` describes a number by its parts.  The scanner accepts exactly the lexemes,
 and at the front of any text it takes the longest one.
 */
module JsonNumbers {
  import opened JsonParser

  // ---- The grammar ------------------------------------------------------------

  ghost predicate Digits(ds: string) { forall i :: 0 <= i < |ds| ==> '0' <= ds[i] <= '9' }

  /** `-? digit*` */
  ghost predicate IntegerPart(a: string) {
    Digits(a) || (a != "" && a[0] == '-' && Digits(a[1..]))
  }

  /** `(. digit*)?` */
  ghost predicate FractionPart(b: string) {
    b == "" || (b[0] == '.' && Digits(b[1..]))
  }

  /** `([eE] [+-]? digit*)?` */
  ghost predicate ExponentPart(c: string) {
    c == "" || (c[0] in "eE" && (Digits(c[1..]) || (|c| > 1 && c[1] in "+-" && Digits(c[2..]))))
  }

  ghost predicate Parts(l: string, a: string, b: string, c: string) {
    l == a + (b + c) && IntegerPart(a) && FractionPart(b) && ExponentPart(c)
  }

  ghost predicate Lexeme(l: string) { exists a, b, c :: Parts(l, a, b, c) }

  /** What makes a number a floating-point one. */
  ghost predicate Pointed(l: string) { '.' in l || 'e' in l || 'E' in l }

  /** No longer beginning of the text is a lexeme. */
  ghost predicate CannotGrow(l: string, rest: string) {
    forall n :: |l| < n <= |l + rest| ==> !Lexeme((l + rest)[..n])
  }

  // ---- Lexemes are read whole ---------------------------------------------------

  lemma {:induction false} DigitsBefore(ds: string, t: string)
    requires Digits(ds) && !IsDigit(Peek(t))
    ensures SkipDigits(ds + t) == t
  {
    if ds == "" {
      assert ds + t == t;
    } else {
      assert (ds + t)[1..] == ds[1..] + t;
      DigitsBefore(ds[1..], t);
    }
  }

  lemma IntegerBefore(a: string, t: string)
    requires IntegerPart(a) && !IsDigit(Peek(t)) && Peek(t) != '-'
    ensures AfterInteger(a + t) == t
  {
    if a != "" && a[0] == '-' {
      assert (a + t)[1..] == a[1..] + t;
      DigitsBefore(a[1..], t);
    } else {
      assert a == "" ==> a + t == t;
      DigitsBefore(a, t);
    }
  }

  lemma FractionBefore(b: string, t: string)
    requires FractionPart(b) && !IsDigit(Peek(t)) && Peek(t) != '.'
    ensures AfterFraction(b + t) == t
  {
    if b == "" {
      assert b + t == t;
    } else {
      assert (b + t)[1..] == b[1..] + t;
      DigitsBefore(b[1..], t);
    }
  }

  lemma ExponentAlone(c: string)
    requires ExponentPart(c)
    ensures AfterExponent(c) == ""
  {
    if c != "" {
      var t := c[1..];
      var ds := if |c| > 1 && c[1] in "+-" then c[2..] else t;
      assert |c| > 1 && c[1] in "+-" ==> t[1..] == c[2..];
      assert ds + "" == ds;
      DigitsBefore(ds, "");
    }
  }

  lemma LexemeIsRead(l: string, a: string, b: string, c: string)
    requires Parts(l, a, b, c)
    ensures NumberRest(l) == "" && AfterInteger(l) == b + c
  {
    hide ExponentPart, FractionPart, IntegerPart;
    Beginnings(b, c);
    IntegerBefore(a, b + c);
    FractionBefore(b, c);
    ExponentAlone(c);
  }

  lemma Beginnings(b: string, c: string)
    requires FractionPart(b) && ExponentPart(c)
    ensures !IsDigit(Peek(c)) && Peek(c) !in "-."
    ensures !IsDigit(Peek(b + c)) && Peek(b + c) != '-'
    ensures Peek(b + c) in ".eE" <==> b + c != ""
  {
    assert b == "" ==> b + c == c;
  }

  // ---- What is read is a lexeme ---------------------------------------------------

  lemma {:induction false} DigitsOf(s: string) returns (l: string)
    ensures s == l + SkipDigits(s) && Digits(l)
  {
    if s != "" && IsDigit(s[0]) {
      var more := DigitsOf(s[1..]);
      l := [s[0]] + more;
      assert s == [s[0]] + (more + SkipDigits(s));
    } else {
      l := "";
    }
  }

  lemma IntegerOf(s: string) returns (l: string)
    ensures s == l + AfterInteger(s) && IntegerPart(l)
  {
    if Peek(s) == '-' {
      l := DigitsOf(s[1..]);
      assert ([s[0]] + l)[1..] == l;
      l := [s[0]] + l;
    } else {
      l := DigitsOf(s);
    }
  }

  lemma FractionOf(s: string) returns (l: string)
    ensures s == l + AfterFraction(s) && FractionPart(l)
  {
    if Peek(s) == '.' {
      l := DigitsOf(s[1..]);
      assert ([s[0]] + l)[1..] == l;
      l := [s[0]] + l;
    } else {
      l := "";
    }
  }

  lemma ExponentOf(s: string) returns (l: string)
    ensures s == l + AfterExponent(s) && ExponentPart(l)
  {
    l := "";
    if Peek(s) == 'e' || Peek(s) == 'E' {
      var t := s[1..];
      assert s == [s[0]] + t;
      if Peek(t) == '+' || Peek(t) == '-' {
        var ds := DigitsOf(t[1..]);
        l := [s[0], t[0]] + ds;
        assert l[2..] == ds;
        assert s == [s[0], t[0]] + t[1..];
      } else {
        var ds := DigitsOf(t);
        l := [s[0]] + ds;
        assert l[1..] == ds;
      }
    }
  }

  lemma LexemeOf(s: string) returns (l: string)
    ensures s == l + NumberRest(s) && Lexeme(l)
  {
    hide AfterInteger, AfterFraction, AfterExponent, IntegerPart, FractionPart, ExponentPart;
    var a := IntegerOf(s);
    var t := AfterInteger(s);
    var b := FractionOf(t);
    var u := AfterFraction(t);
    var c := ExponentOf(u);
    var r := AfterExponent(u);
    l := a + (b + c);
    Regrouped(a, b, c, r);
    assert Parts(l, a, b, c);
  }

  lemma Regrouped(a: string, b: string, c: string, r: string)
    ensures a + (b + (c + r)) == a + (b + c) + r
  {
  }

  /** The scanner leaves nothing over exactly of the lexemes. */
  lemma LexemesAreScanned(l: string)
    ensures NumberRest(l) == "" <==> Lexeme(l)
  {
    var m := LexemeOf(l);
    if NumberRest(l) == "" { assert m + "" == m; }
    if a, b, c :| Parts(l, a, b, c) { LexemeIsRead(l, a, b, c); }
  }

  /** The scanner calls a lexeme a float exactly when it has a point or an exponent. */
  lemma FloatsArePointed(l: string)
    requires Lexeme(l)
    ensures IsFloat(l) == Pointed(l) == ('.' in l || 'e' in l || 'E' in l)
  {
    var a, b, c :| Parts(l, a, b, c);
    LexemeIsRead(l, a, b, c);
    Beginnings(b, c);
    assert forall i :: 0 <= i < |a| ==> a[i] !in ".eE";
    if b + c != "" {
      assert (b + c)[0] in b + c && (b + c)[0] in l;
    } else {
      assert l == a;
    }
  }

  lemma IntegersAreLexemes(a: string)
    requires IntegerPart(a)
    ensures Lexeme(a) && !Pointed(a)
  {
    assert a == a + ("" + "");
    assert Parts(a, a, "", "");
    assert forall i :: 0 <= i < |a| ==> a[i] !in ".eE";
  }

  // ---- The longest lexeme -----------------------------------------------------------

  lemma {:induction false} DigitsShrink(l: string, rest: string)
    requires SkipDigits(l) == ""
    ensures |SkipDigits(l + rest)| <= |rest|
  {
    if l == "" {
      assert l + rest == rest;
    } else {
      assert (l + rest)[1..] == l[1..] + rest;
      DigitsShrink(l[1..], rest);
    }
  }

  lemma IntegerShrinks(l: string, rest: string)
    requires AfterInteger(l) == ""
    ensures |AfterInteger(l + rest)| <= |rest|
  {
    if l == "" {
      assert l + rest == rest;
    } else if l[0] == '-' {
      assert (l + rest)[1..] == l[1..] + rest;
      DigitsShrink(l[1..], rest);
    } else {
      DigitsShrink(l, rest);
    }
  }

  lemma FractionShrinks(l: string, rest: string)
    requires AfterFraction(l) == ""
    ensures |AfterFraction(l + rest)| <= |rest|
  {
    if l == "" {
      assert l + rest == rest;
    } else {
      assert (l + rest)[1..] == l[1..] + rest;
      DigitsShrink(l[1..], rest);
    }
  }

  lemma ExponentShrinks(l: string, rest: string)
    requires AfterExponent(l) == ""
    ensures |AfterExponent(l + rest)| <= |rest|
  {
    if l == "" {
      assert l + rest == rest;
    } else {
      var t := l[1..];
      assert (l + rest)[1..] == t + rest;
      if t == "" {
        assert t + rest == rest;
      } else if t[0] == '+' || t[0] == '-' {
        assert (t + rest)[1..] == t[1..] + rest;
        DigitsShrink(t[1..], rest);
      } else {
        DigitsShrink(t, rest);
      }
    }
  }

  /** A lexeme in front is read at least as far as it goes. */
  lemma LexemeShrinks(l: string, rest: string)
    requires NumberRest(l) == ""
    ensures |NumberRest(l + rest)| <= |rest|
  {
    hide AfterInteger, AfterFraction, AfterExponent;
    var a := AfterInteger(l);
    if a == "" {
      IntegerShrinks(l, rest);
    } else {
      IntegerExtends(l, rest);
      var b := AfterFraction(a);
      if b == "" {
        FractionShrinks(a, rest);
      } else {
        FractionExtends(a, rest);
        ExponentShrinks(b, rest);
      }
    }
  }

  /** At the front of any text the scanner takes a lexeme, and no longer beginning is one. */
  lemma MaximalMunch(s: string)
    ensures var n := |s| - |NumberRest(s)|;
            s == s[..n] + NumberRest(s) && Lexeme(s[..n]) && forall m :: n < m <= |s| ==> !Lexeme(s[..m])
  {
    hide Lexeme, NumberRest;
    var l := LexemeOf(s);
    assert s[..|l|] == l;
    forall m | |l| < m <= |s|
      ensures !Lexeme(s[..m])
    {
      assert s == s[..m] + s[m..];
      LexemesAreScanned(s[..m]);
      if Lexeme(s[..m]) { LexemeShrinks(s[..m], s[m..]); }
    }
  }

  /** So a lexeme is read, and nothing more, exactly when the text cannot prolong it. */
  lemma ReadExactly(l: string, rest: string)
    requires Lexeme(l)
    ensures NumberRest(l + rest) == rest <==> CannotGrow(l, rest)
  {
    hide Lexeme, NumberRest;
    var s := l + rest;
    var n := |s| - |NumberRest(s)|;
    MaximalMunch(s);
    assert s[..|l|] == l;
    LexemesAreScanned(l);
    LexemeShrinks(l, rest);
    assert s[|l|..] == rest && s[n..] == NumberRest(s);
  }

  // ---- What can follow a lexeme -------------------------------------------------------

  /** A digit run ends where it ended, whatever non-digit text is put after it. */
  lemma {:induction false} DigitsExtend(l: string, rest: string)
    requires SkipDigits(l) != "" || !IsDigit(Peek(rest))
    ensures SkipDigits(l + rest) == SkipDigits(l) + rest
  {
    if l == "" {
      assert l + rest == rest;
    } else if IsDigit(l[0]) {
      assert (l + rest)[1..] == l[1..] + rest;
      DigitsExtend(l[1..], rest);
    }
  }

  /** Cutting text off behind a digit run does not change the run. */
  lemma {:induction false} DigitsCut(l: string, rest: string)
    requires |rest| <= |SkipDigits(l + rest)|
    ensures SkipDigits(l + rest) == SkipDigits(l) + rest
  {
    if l == "" {
      assert l + rest == rest;
    } else if IsDigit(l[0]) {
      assert (l + rest)[1..] == l[1..] + rest;
      DigitsCut(l[1..], rest);
    }
  }

  /** A lexeme cannot grow when what follows it cannot continue a number. */
  lemma LexemeStops(l: string, rest: string)
    requires Lexeme(l) && !IsDigit(Peek(rest)) && Peek(rest) !in "-+.eE"
    ensures CannotGrow(l, rest)
  {
    LexemesAreScanned(l);
    LexemeExtends(l, rest);
    ReadExactly(l, rest);
  }

  lemma IntegerExtends(l: string, rest: string)
    requires AfterInteger(l) != "" || (!IsDigit(Peek(rest)) && Peek(rest) != '-')
    ensures AfterInteger(l + rest) == AfterInteger(l) + rest
  {
    if l == "" {
      assert l + rest == rest;
    } else if l[0] == '-' {
      assert (l + rest)[1..] == l[1..] + rest;
      DigitsExtend(l[1..], rest);
    } else {
      DigitsExtend(l, rest);
    }
  }

  lemma FractionExtends(l: string, rest: string)
    requires AfterFraction(l) != "" || (!IsDigit(Peek(rest)) && Peek(rest) != '.')
    ensures AfterFraction(l + rest) == AfterFraction(l) + rest
  {
    if l == "" {
      assert l + rest == rest;
    } else if l[0] == '.' {
      assert (l + rest)[1..] == l[1..] + rest;
      DigitsExtend(l[1..], rest);
    }
  }

  lemma ExponentExtends(l: string, rest: string)
    requires !IsDigit(Peek(rest)) && Peek(rest) !in "-+eE"
    ensures AfterExponent(l + rest) == AfterExponent(l) + rest
  {
    if l == "" {
      assert l + rest == rest;
    } else if l[0] == 'e' || l[0] == 'E' {
      var t := l[1..];
      assert (l + rest)[1..] == t + rest;
      if t == "" {
        assert t + rest == rest;
        DigitsExtend("", rest);
      } else if t[0] == '+' || t[0] == '-' {
        assert (t + rest)[1..] == t[1..] + rest;
        DigitsExtend(t[1..], rest);
      } else {
        DigitsExtend(t, rest);
      }
    }
  }

  lemma LexemeExtends(l: string, rest: string)
    requires !IsDigit(Peek(rest)) && Peek(rest) !in "-+.eE"
    ensures NumberRest(l + rest) == NumberRest(l) + rest
    ensures IsFloat(l + rest) == IsFloat(l)
  {
    IntegerExtends(l, rest);
    FractionExtends(AfterInteger(l), rest);
    ExponentExtends(AfterFraction(AfterInteger(l)), rest);
  }

  /** Conversely, the consumed part of a text is a lexeme of its own. */
  lemma LexemeCut(l: string, rest: string)
    requires NumberRest(l + rest) == rest
    ensures NumberRest(l) == "" && IsFloat(l) == IsFloat(l + rest)
  {
    IntegerCut(l, rest);
    FractionCut(AfterInteger(l), rest);
    ExponentCut(AfterFraction(AfterInteger(l)), rest);
  }

  lemma IntegerCut(l: string, rest: string)
    requires |rest| <= |AfterInteger(l + rest)|
    ensures AfterInteger(l + rest) == AfterInteger(l) + rest
  {
    if l == "" {
      assert l + rest == rest;
    } else if l[0] == '-' {
      assert (l + rest)[1..] == l[1..] + rest;
      DigitsCut(l[1..], rest);
    } else {
      DigitsCut(l, rest);
    }
  }

  lemma FractionCut(l: string, rest: string)
    requires |rest| <= |AfterFraction(l + rest)|
    ensures AfterFraction(l + rest) == AfterFraction(l) + rest
  {
    if l == "" {
      assert l + rest == rest;
    } else if l[0] == '.' {
      assert (l + rest)[1..] == l[1..] + rest;
      DigitsCut(l[1..], rest);
    }
  }

  lemma ExponentCut(l: string, rest: string)
    requires AfterExponent(l + rest) == rest
    ensures AfterExponent(l) == ""
  {
    if l == "" {
    } else if l[0] == 'e' || l[0] == 'E' {
      var t := l[1..];
      assert (l + rest)[1..] == t + rest;
      if t == "" {
        assert t + rest == rest;
      } else if t[0] == '+' || t[0] == '-' {
        assert (t + rest)[1..] == t[1..] + rest;
        DigitsCut(t[1..], rest);
      } else {
        DigitsCut(t, rest);
      }
    }
  }
}
