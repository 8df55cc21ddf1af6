/** The number grammar of section 6 of RFC 8259, and the lexer that ParseFixedPoint runs over a string. */
module JsonNumber {
  import opened Options

  predicate IsDigit(c: char) { '0' <= c <= '9' }

  /** Exactly the ten characters of the grammar's digits. */
  lemma DigitsAre(c: char)
    ensures IsDigit(c) <==> c in "0123456789"
  {
    assert "0123456789"[0] == '0' && "0123456789"[1] == '1' && "0123456789"[2] == '2' && "0123456789"[3] == '3';
    assert "0123456789"[4] == '4' && "0123456789"[5] == '5' && "0123456789"[6] == '6' && "0123456789"[7] == '7';
    assert "0123456789"[8] == '8' && "0123456789"[9] == '9';
  }

  predicate AllDigits(s: string) { forall i :: 0 <= i < |s| ==> IsDigit(s[i]) }

  // ----- The grammar: a literal and its text -----

  /** Absent parts are empty strings; mark is the exponent letter and its sign. */
  datatype Literal = Literal(neg: bool, whole: string, frac: string, mark: string, exp: string)

  predicate IsMark(m: string) { m in {"e", "E", "e+", "E+", "e-", "E-"} }

  predicate Valid(n: Literal) {
    && AllDigits(n.whole) && n.whole != "" && (n.whole == "0" || n.whole[0] != '0')
    && AllDigits(n.frac)
    && AllDigits(n.exp) && (if n.exp == "" then n.mark == "" else IsMark(n.mark))
  }

  function Sign(neg: bool): string { if neg then "-" else "" }
  function Fraction(frac: string): string { if frac == "" then "" else "." + frac }

  function Text(n: Literal): string {
    Sign(n.neg) + n.whole + Fraction(n.frac) + n.mark + n.exp
  }

  // ----- The lexer -----

  /** Where the run of digits that starts at i ends. */
  function RunEnd(s: string, i: nat): (r: nat)
    requires i <= |s|
    ensures i <= r <= |s| && AllDigits(s[i..r]) && (r < |s| ==> !IsDigit(s[r]))
    decreases |s| - i
  {
    if i < |s| && IsDigit(s[i]) then RunEnd(s, i + 1) else i
  }

  datatype Head = Head(neg: bool, whole: string, frac: string, next: nat)

  function SignEnd(s: string): nat { if |s| > 0 && s[0] == '-' then 1 else 0 }

  /** The integer part: a single 0, or a run of digits. */
  function WholeEnd(s: string, i: nat): (r: nat)
    requires i <= |s|
    ensures i <= r <= |s|
  {
    if i < |s| && s[i] == '0' then i + 1 else RunEnd(s, i)
  }

  /** Where the fraction that starts at j ends, if one can end. */
  function FracEnd(s: string, j: nat): (r: Option<nat>)
    requires j <= |s|
    ensures r.Some? ==> j <= r.value <= |s| && r.value != j + 1
  {
    if j < |s| && s[j] == '.' then
      var k := RunEnd(s, j + 1);
      if k == j + 1 then None else Some(k)
    else Some(j)
  }

  function FracDigits(s: string, j: nat, k: nat): string
    requires j <= k <= |s| && k != j + 1
  {
    if j == k then "" else s[j + 1..k]
  }

  function LexHead(s: string): (r: Option<Head>)
    ensures r.Some? ==> r.value.next <= |s|
  {
    var i := SignEnd(s);
    var j := WholeEnd(s, i);
    var k := FracEnd(s, j);
    if j == i || k.None? then None
    else Some(Head(i == 1, s[i..j], FracDigits(s, j, k.value), k.value))
  }

  /** How long the exponent letter and sign at k are. */
  function MarkEnd(s: string, k: nat): (r: nat)
    requires k < |s|
    ensures k < r <= |s|
  {
    if k + 1 < |s| && (s[k + 1] == '+' || s[k + 1] == '-') then k + 2 else k + 1
  }

  datatype Rest = Rest(mark: string, exp: string)

  function LexRest(s: string, k: nat): Option<Rest>
    requires k <= |s|
  {
    if k == |s| then Some(Rest("", ""))
    else if s[k] == 'e' || s[k] == 'E' then
      var l := MarkEnd(s, k);
      if RunEnd(s, l) == |s| && l < |s| then Some(Rest(s[k..l], s[l..])) else None
    else None
  }

  function Lex(s: string): Option<Literal> {
    match LexHead(s)
    case None => None
    case Some(h) =>
      match LexRest(s, h.next)
      case None => None
      case Some(r) => Some(Literal(h.neg, h.whole, h.frac, r.mark, r.exp))
  }

  // ----- Every accepted string is a literal of the grammar, and every literal is read back as itself -----

  lemma {:induction false} LexSound(s: string)
    requires Lex(s).Some?
    ensures Valid(Lex(s).value) && Text(Lex(s).value) == s
  {
    hide LexHead, LexRest, Sign, Fraction, IsMark, AllDigits;
    var h := LexHead(s).value;
    var r := LexRest(s, h.next).value;
    HeadSound(s);
    RestSound(s, h.next);
    Assemble(s, h.next, Sign(h.neg) + h.whole + Fraction(h.frac), r.mark, r.exp);
  }

  lemma Assemble(s: string, k: nat, head: string, mark: string, exp: string)
    requires k <= |s| && s[..k] == head && s[k..] == mark + exp
    ensures head + mark + exp == s
  {
    assert s[..k] + s[k..] == s;
  }

  lemma {:induction false} HeadSound(s: string)
    requires LexHead(s).Some?
    ensures var h := LexHead(s).value;
      && AllDigits(h.whole) && h.whole != "" && (h.whole == "0" || h.whole[0] != '0') && AllDigits(h.frac)
      && s[..h.next] == Sign(h.neg) + h.whole + Fraction(h.frac)
  {
    hide RunEnd, WholeEnd, FracEnd, FracDigits, AllDigits, Fraction;
    var h := LexHead(s).value;
    var i := SignEnd(s);
    var j := WholeEnd(s, i);
    WholeSound(s, i);
    FracSound(s, j);
    assert s[..i] == Sign(h.neg);
    Join(s, i, j, h.next);
  }

  lemma Join(s: string, i: nat, j: nat, k: nat)
    requires i <= j <= k <= |s|
    ensures s[..k] == s[..i] + s[i..j] + s[j..k]
  {
  }

  lemma WholeSound(s: string, i: nat)
    requires i <= |s| && WholeEnd(s, i) != i
    ensures var whole := s[i..WholeEnd(s, i)]; AllDigits(whole) && (whole == "0" || whole[0] != '0')
  {
    hide RunEnd;
    if s[i] == '0' { assert s[i..i + 1] == "0"; }
  }

  lemma FracSound(s: string, j: nat)
    requires j <= |s| && FracEnd(s, j).Some?
    ensures var k := FracEnd(s, j).value; AllDigits(FracDigits(s, j, k)) && s[j..k] == Fraction(FracDigits(s, j, k))
  {
    hide RunEnd;
    var k := FracEnd(s, j).value;
    if k != j { assert s[j..k] == "." + s[j + 1..k]; }
  }

  lemma {:induction false} RestSound(s: string, k: nat)
    requires k <= |s| && LexRest(s, k).Some?
    ensures var r := LexRest(s, k).value;
      && AllDigits(r.exp) && (if r.exp == "" then r.mark == "" else IsMark(r.mark))
      && s[k..] == r.mark + r.exp
  {
    hide RunEnd;
    if k < |s| {
      var l := MarkEnd(s, k);
      assert s[k..] == s[k..l] + s[l..];
      assert s[l..RunEnd(s, l)] == s[l..];
      if l == k + 1 { assert s[k..l] == [s[k]]; } else { assert s[k..l] == [s[k], s[k + 1]]; }
    }
  }

  /** A run is as long as its digits go. */
  lemma {:induction false} RunIs(s: string, i: nat, r: nat)
    requires i <= r <= |s| && AllDigits(s[i..r]) && (r < |s| ==> !IsDigit(s[r]))
    ensures RunEnd(s, i) == r
    decreases r - i
  {
    if i < r {
      assert IsDigit(s[i..r][0]);
      assert s[i..r][1..] == s[i + 1..r];
      RunIs(s, i + 1, r);
    }
  }

  /** The four parts of a text, at their offsets. */
  lemma {:induction false} Layout(s: string, sign: string, whole: string, frac: string, rest: string)
    requires s == sign + whole + frac + rest
    ensures var i, j := |sign|, |sign| + |whole|;
      && j + |frac| <= |s| && s[..i] == sign && s[i..j] == whole && s[j..j + |frac|] == frac && s[j + |frac|..] == rest
    ensures s[|sign| + |whole|..] == frac + rest && (whole != "" ==> s[|sign|] == whole[0]) && (sign != "" ==> s[0] == sign[0])
  {
    assert whole != "" ==> s[|sign|] == whole[0];
  }

  lemma {:induction false} LexComplete(n: Literal)
    requires Valid(n)
    ensures Lex(Text(n)) == Some(n)
  {
    hide LexHead, LexRest, Sign, Fraction, IsMark, AllDigits;
    var s := Text(n);
    var k := |Sign(n.neg)| + |n.whole| + |Fraction(n.frac)|;
    assert s == Sign(n.neg) + n.whole + Fraction(n.frac) + (n.mark + n.exp);
    Layout(s, Sign(n.neg), n.whole, Fraction(n.frac), n.mark + n.exp);
    HeadComplete(s, n);
    RestComplete(s, k, n.mark, n.exp);
  }

  lemma {:induction false} HeadComplete(s: string, n: Literal)
    requires Valid(n) && s == Sign(n.neg) + n.whole + Fraction(n.frac) + (n.mark + n.exp)
    ensures LexHead(s) == Some(Head(n.neg, n.whole, n.frac, |Sign(n.neg)| + |n.whole| + |Fraction(n.frac)|))
  {
    hide RunEnd, WholeEnd, FracEnd, FracDigits, AllDigits, IsMark, Fraction;
    Layout(s, Sign(n.neg), n.whole, Fraction(n.frac), n.mark + n.exp);
    var i := |Sign(n.neg)|;
    FirstOf(n);
    WholeComplete(s, i, n.whole, Fraction(n.frac) + (n.mark + n.exp));
    FracComplete(s, i + |n.whole|, n.frac, n.mark + n.exp);
  }

  lemma FirstOf(n: Literal)
    requires Valid(n)
    ensures n.whole[0] != '-' && n.whole[0] != '.'
    ensures n.mark + n.exp != "" ==> (n.mark + n.exp)[0] == 'e' || (n.mark + n.exp)[0] == 'E'
    ensures var t := Fraction(n.frac) + (n.mark + n.exp);
      t != "" ==> t[0] == '.' || t[0] == 'e' || t[0] == 'E'
  {
    assert IsDigit(n.whole[0]);
    if n.frac == "" { assert "" + (n.mark + n.exp) == n.mark + n.exp; }
  }

  lemma WholeComplete(s: string, i: nat, whole: string, rest: string)
    requires i + |whole| <= |s| && s[i..i + |whole|] == whole && s[i + |whole|..] == rest
    requires AllDigits(whole) && whole != "" && (whole == "0" || whole[0] != '0')
    requires rest != "" ==> !IsDigit(rest[0])
    ensures WholeEnd(s, i) == i + |whole|
  {
    hide RunEnd;
    var j := i + |whole|;
    assert s[i] == s[i..j][0];
    if j < |s| { assert s[j] == s[j..][0]; }
    if whole != "0" { RunIs(s, i, j); }
  }

  lemma FracComplete(s: string, j: nat, frac: string, rest: string)
    requires j + |Fraction(frac)| <= |s| && s[j..j + |Fraction(frac)|] == Fraction(frac)
    requires s[j + |Fraction(frac)|..] == rest && AllDigits(frac)
    requires rest != "" ==> rest[0] == 'e' || rest[0] == 'E'
    ensures var k := j + |Fraction(frac)|; FracEnd(s, j) == Some(k) && k != j + 1 && FracDigits(s, j, k) == frac
  {
    hide RunEnd;
    var k := j + |Fraction(frac)|;
    if k < |s| { assert s[k] == s[k..][0]; }
    if frac != "" {
      assert s[j] == s[j..k][0];
      assert s[j + 1..k] == s[j..k][1..];
      RunIs(s, j + 1, k);
    }
  }

  lemma {:induction false} RestComplete(s: string, k: nat, mark: string, exp: string)
    requires k <= |s| && s[k..] == mark + exp
    requires AllDigits(exp) && (if exp == "" then mark == "" else IsMark(mark))
    ensures LexRest(s, k) == Some(Rest(mark, exp))
  {
    hide RunEnd;
    if exp != "" {
      var l := k + |mark|;
      assert s[k] == mark[0] && s[k..l] == mark && s[l..] == exp && s[l] == exp[0];
      assert |mark| == 2 ==> s[k + 1] == mark[1];
      assert s[l..|s|] == s[l..];
      RunIs(s, l, |s|);
    }
  }

  /** Reading and the grammar agree on every string and every literal. */
  lemma {:induction false} LexIsGrammar(s: string, n: Literal)
    ensures Lex(s) == Some(n) <==> Valid(n) && Text(n) == s
  {
    if Lex(s) == Some(n) { LexSound(s); }
    if Valid(n) && Text(n) == s { LexComplete(n); }
  }
}
