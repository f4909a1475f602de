/**
 * The line utilities of the keyword-deck parser: number inference for
 * attribute values, the header tokeniser (`*Name, k=v, flag`), the ordered
 * attribute map it builds, and the two matchers used by path queries, one
 * for attribute clauses and one for content lines.
 */
module LineUtils {
  import opened Wrappers
  import opened Strings

  /** An attribute value: a flag without value (Python `None`), a number or text. */
  datatype Value = Flag | Int(i: int) | Real(r: real) | Str(s: string)

  /** Regular expressions are not modelled: `search(pattern, text)` is `re.search`,
      `matchStart(pattern, text)` is `re.match`. */
  datatype Regex = Regex(search: (string, string) -> bool, matchStart: (string, string) -> bool)

  /** The character that switches regex matching on for one value ("ø"). */
  const RegexEnabler: char := 'ø'

  // ---------------------------------------------------------------- numbers

  function Pow10(n: nat): (p: nat)
    ensures p >= 1
  {
    if n == 0 then 1 else 10 * Pow10(n - 1)
  }

  predicate AllDigits(s: string)
  {
    forall i :: 0 <= i < |s| ==> IsDigit(s[i])
  }

  /** The value of `ip.fp` for digit strings. */
  function PointValue(ip: string, fp: string): (r: real)
    requires AllDigits(ip) && AllDigits(fp)
    ensures r >= 0.0
  {
    DigitsValue(ip) as real + DigitsValue(fp) as real / Pow10(|fp|) as real
  }

  /** The value of an unsigned decimal literal: digits, optionally with one '.'. */
  function UnsignedDecimal(t: string): (r: Option<real>)
    ensures r.Some? ==> r.value >= 0.0
  {
    if '.' in t then
      var (ip, fp) := SplitOnce(t, '.');
      if AllDigits(ip) && AllDigits(fp) && |ip| + |fp| > 0
      then Some(PointValue(ip, fp))
      else None
    else if IsNumeric(t) then Some(DigitsValue(t) as real)
    else None
  }

  /** A stripped decimal literal with at most one leading sign. */
  function SignedDecimal(t: string): Option<real>
  {
    if |t| > 0 && t[0] == '-' then
      match UnsignedDecimal(t[1..])
      case Some(a) => Some(-a)
      case None => None
    else if |t| > 0 && t[0] == '+' then UnsignedDecimal(t[1..])
    else UnsignedDecimal(t)
  }

  /** Python `float(s)` on decimal literals: surrounding whitespace and one sign allowed. */
  function DecimalValue(s: string): Option<real>
  {
    SignedDecimal(StripWs(s))
  }

  /**
   * `infernumber`: a string that reads as a number becomes that number, and an
   * integral number becomes an int unless `explicit` is set and the text has a
   * '.'; any other string is returned unchanged.
   */
  function InferNumber(s: string, explicit: bool := false): (r: Value)
    ensures !r.Flag?
    ensures r.Str? <==> DecimalValue(s).None?
    ensures r.Str? ==> r.s == s
    ensures r.Int? ==> DecimalValue(s) == Some(r.i as real) && (!explicit || '.' !in s)
    ensures r.Real? ==> DecimalValue(s) == Some(r.r)
    ensures r.Real? && !explicit ==> r.r != r.r.Floor as real
    ensures (DecimalValue(s).Some? && DecimalValue(s).value == DecimalValue(s).value.Floor as real
             && !(explicit && '.' in s)) ==> r.Int?
    ensures DecimalValue(s).Some? && explicit && '.' in s ==> r.Real?
  {
    match DecimalValue(s)
    case None => Str(s)
    case Some(a) =>
      if explicit && '.' in s then Real(a)
      else if a == a.Floor as real then Int(a.Floor)
      else Real(a)
  }

  /** Decimal text of an integer, as Python's `str(n)` writes it. */
  function IntToText(n: int): string
  {
    if n < 0 then "-" + NatToDigits(-n) else NatToDigits(n)
  }

  lemma NoSignInDigits(s: string)
    requires AllDigits(s)
    ensures '.' !in s && '-' !in s && '+' !in s
  {
  }

  lemma UnsignedOfDigits(d: string)
    requires AllDigits(d) && |d| > 0
    ensures UnsignedDecimal(d) == Some(DigitsValue(d) as real)
  {
    NoSignInDigits(d);
  }

  lemma InferOfReal(s: string, n: int)
    requires DecimalValue(s) == Some(n as real)
    ensures InferNumber(s) == Int(n)
  {
    assert (n as real).Floor == n;
  }

  /** Text that neither starts nor ends with whitespace is read without stripping. */
  lemma DecimalOfUnpadded(s: string, x: real)
    requires |s| > 0 && !IsSpace(s[0]) && !IsSpace(s[|s| - 1])
    requires SignedDecimal(s) == Some(x)
    ensures DecimalValue(s) == Some(x)
  {
    StripWsNoop(s);
  }

  lemma SignedOfMinus(d: string, x: real)
    requires UnsignedDecimal(d) == Some(x)
    ensures SignedDecimal("-" + d) == Some(-x)
  {
    var t := "-" + d;
    assert t[0] == '-' && t[1..] == d;
  }

  /** "-" before an unsigned digit literal negates it. */
  lemma DecimalOfMinus(d: string, v: real)
    requires AllDigits(d) && |d| > 0
    requires UnsignedDecimal(d) == Some(v)
    ensures DecimalValue("-" + d) == Some(-v)
  {
    var t := "-" + d;
    assert t[|t| - 1] == d[|d| - 1];
    DigitNotSpace(t[0]);
    DigitNotSpace(t[|t| - 1]);
    SignedOfMinus(d, v);
    DecimalOfUnpadded(t, -v);
  }

  /** "-digits" reads as minus the digits' value. */
  lemma DecimalOfMinusDigits(d: string, v: real)
    requires AllDigits(d) && |d| > 0
    requires v == DigitsValue(d) as real
    ensures DecimalValue("-" + d) == Some(-v)
  {
    UnsignedOfDigits(d);
    DecimalOfMinus(d, v);
  }

  /** Plain digits read as their value. */
  lemma DecimalOfDigits(d: string, x: real)
    requires AllDigits(d) && |d| > 0
    requires x == DigitsValue(d) as real
    ensures DecimalValue(d) == Some(x)
  {
    UnsignedOfDigits(d);
    assert IsDigit(d[0]) && IsDigit(d[|d| - 1]);
    DigitNotSpace(d[0]);
    DigitNotSpace(d[|d| - 1]);
    DecimalOfUnpadded(d, x);
  }

  /** Printing an integer and inferring it back gives the same integer. */
  lemma InferNumberOfInt(n: int)
    ensures InferNumber(IntToText(n)) == Int(n)
  {
    if n < 0 {
      DigitsRoundTrip(-n);
      DecimalOfMinusDigits(NatToDigits(-n), (-n) as real);
    } else {
      DigitsRoundTrip(n);
      DecimalOfDigits(NatToDigits(n), n as real);
    }
    InferOfReal(IntToText(n), n);
  }

  /** Splitting `a + [c] + b` at its first `c`, when `a` has none. */
  lemma SplitAtFirst(a: string, b: string, c: char)
    requires c !in a
    ensures c in a + [c] + b && SplitOnce(a + [c] + b, c) == (a, b)
  {
    var s := a + [c] + b;
    assert s[|a|] == c;
    var r := SplitOnce(s, c);
    assert |r.0| == |a|;
    assert r.0 == s[..|a|] == a;
    assert r.1 == s[|a| + 1..] == b;
  }

  lemma SplitPointZero(d: string)
    requires AllDigits(d)
    ensures '.' in d + ".0" && SplitOnce(d + ".0", '.') == (d, "0")
  {
    NoSignInDigits(d);
    assert d + ".0" == d + ['.'] + "0";
    SplitAtFirst(d, "0", '.');
  }

  lemma PointZeroValue(d: string)
    requires AllDigits(d)
    ensures PointValue(d, "0") == DigitsValue(d) as real
  {
    assert DigitsValue("0") == 0 by { assert "0"[..0] == ""; }
  }

  lemma UnsignedOfSplit(t: string, ip: string, fp: string)
    requires AllDigits(ip) && AllDigits(fp) && |ip| + |fp| > 0
    requires '.' in t && SplitOnce(t, '.') == (ip, fp)
    ensures UnsignedDecimal(t) == Some(PointValue(ip, fp))
  {
  }

  /** Digits followed by ".0" read as the digits' value. */
  lemma UnsignedOfPointZero(d: string)
    requires AllDigits(d) && |d| > 0
    ensures UnsignedDecimal(d + ".0") == Some(DigitsValue(d) as real)
  {
    SplitPointZero(d);
    assert AllDigits("0");
    UnsignedOfSplit(d + ".0", d, "0");
    PointZeroValue(d);
  }

  lemma DecimalOfPointZero(d: string, x: real)
    requires AllDigits(d) && |d| > 0
    requires x == DigitsValue(d) as real
    ensures DecimalValue(d + ".0") == Some(x)
  {
    var t := d + ".0";
    UnsignedOfPointZero(d);
    assert IsDigit(t[0]);
    DigitNotSpace(t[0]);
    DigitNotSpace(t[|t| - 1]);
    DecimalOfUnpadded(t, x);
  }

  /** The integral downcast: "n.0" reads as the integer n, unless `explicit` asks for a float. */
  lemma InferNumberDowncast(n: nat)
    ensures InferNumber(NatToDigits(n) + ".0") == Int(n)
    ensures InferNumber(NatToDigits(n) + ".0", true) == Real(n as real)
  {
    var t := NatToDigits(n) + ".0";
    DigitsRoundTrip(n);
    DecimalOfPointZero(NatToDigits(n), n as real);
    InferOfReal(t, n);
    assert t[|t| - 2] == '.';
  }

  // ------------------------------------------------------ ordered attributes

  /** An ordered attribute map (Python `OrderedDict`): keys unique, insertion order kept. */
  type Props = seq<(string, Value)>

  function Keys(p: Props): (ks: seq<string>)
    ensures |ks| == |p|
    ensures forall i :: 0 <= i < |p| ==> ks[i] == p[i].0
  {
    if p == [] then [] else [p[0].0] + Keys(p[1..])
  }

  predicate Distinct(ks: seq<string>)
  {
    forall i, j :: 0 <= i < j < |ks| ==> ks[i] != ks[j]
  }

  function Lookup(p: Props, k: string): (r: Option<Value>)
    ensures r.Some? <==> k in Keys(p)
  {
    if p == [] then None
    else if p[0].0 == k then Some(p[0].1)
    else Lookup(p[1..], k)
  }

  /** `d[k] = v`: an existing key keeps its position and takes the new value,
      a new key goes last. */
  function Put(p: Props, k: string, v: Value): (r: Props)
    ensures Keys(r) == if k in Keys(p) then Keys(p) else Keys(p) + [k]
    ensures Lookup(r, k) == Some(v)
    ensures forall k' :: k' != k ==> Lookup(r, k') == Lookup(p, k')
  {
    if p == [] then [(k, v)]
    else if p[0].0 == k then [(k, v)] + p[1..]
    else [p[0]] + Put(p[1..], k, v)
  }

  // ------------------------------------------------------------------ header

  /** `ParameterizedLine`: the original line, the block name and its attributes. */
  datatype Header = Header(line: string, name: string, props: Props)

  /** One attribute segment of a header: `k=v` or a bare flag. */
  function Segment(seg: string): Result<(string, Value)>
  {
    if '=' in seg then
      var parts := Split(seg, '=');
      if |parts| != 2 then Err(UnpackError(seg))
      else Ok((StripWs(parts[0]), InferNumber(StripWs(parts[1]))))
    else Ok((StripWs(seg), Flag))
  }

  /** The attribute segments folded into `acc`, left to right; the first bad one raises. */
  function ParseProps(acc: Props, segs: seq<string>): Result<Props>
    decreases |segs|
  {
    if segs == [] then Ok(acc)
    else match Segment(segs[0])
      case Err(e) => Err(e)
      case Ok(kv) => ParseProps(Put(acc, kv.0, kv.1), segs[1..])
  }

  /** `parseheader` / `ParameterizedLine.fromheader`. */
  function ParseHeader(line: string): (r: Result<Header>)
    ensures r.Ok? ==> r.value.line == line
    ensures r.Ok? ==> r.value.name == LStrip(Split(line, ',')[0], {'*', ' '})
  {
    var segs := Split(line, ',');
    match ParseProps([], segs[1..])
    case Err(e) => Err(e)
    case Ok(p) => Ok(Header(line, LStrip(segs[0], {'*', ' '}), p))
  }

  /** The value the LAST segment with key `k` gives (later segments overwrite). */
  function LastValue(segs: seq<string>, k: string): Option<Value>
  {
    if segs == [] then None
    else match Segment(segs[|segs| - 1])
      case Ok(kv) => if kv.0 == k then Some(kv.1) else LastValue(segs[..|segs| - 1], k)
      case Err(_) => LastValue(segs[..|segs| - 1], k)
  }

  lemma DigitNotSpace(c: char)
    requires IsDigit(c) || c == '-' || c == '.'
    ensures !IsSpace(c)
  {
  }

  /** A string whose ends are not whitespace is its own `strip()`. */
  lemma StripWsNoop(s: string)
    requires |s| > 0 ==> !IsSpace(s[0]) && !IsSpace(s[|s| - 1])
    ensures StripWs(s) == s
  {
  }

  /** The keys of the segments in order of first appearance. */
  function FirstKeys(seen: seq<string>, segs: seq<string>): seq<string>
    decreases |segs|
  {
    if segs == [] then seen
    else match Segment(segs[0])
      case Ok(kv) => FirstKeys(if kv.0 in seen then seen else seen + [kv.0], segs[1..])
      case Err(_) => FirstKeys(seen, segs[1..])
  }

  lemma {:induction false} LastValueSnoc(segs: seq<string>, s: string, k: string)
    ensures LastValue(segs + [s], k) ==
      match Segment(s)
      case Ok(kv) => if kv.0 == k then Some(kv.1) else LastValue(segs, k)
      case Err(_) => LastValue(segs, k)
  {
    assert (segs + [s])[..|segs|] == segs;
  }

  /** Folding segments: every key gets the value of its last segment. */
  lemma {:induction false} ParsePropsLookup(acc: Props, segs: seq<string>, k: string)
    requires ParseProps(acc, segs).Ok?
    ensures Lookup(ParseProps(acc, segs).value, k) ==
      match LastValue(segs, k)
      case Some(v) => Some(v)
      case None => Lookup(acc, k)
    decreases |segs|
  {
    if segs != [] {
      var kv := Segment(segs[0]).value;
      var acc' := Put(acc, kv.0, kv.1);
      ParsePropsLookup(acc', segs[1..], k);
      LastValueCons(segs, k);
    }
  }

  /** LastValue seen from the front: the rest wins over the first segment. */
  lemma {:induction false} LastValueCons(segs: seq<string>, k: string)
    requires segs != [] && Segment(segs[0]).Ok?
    ensures LastValue(segs, k) ==
      match LastValue(segs[1..], k)
      case Some(v) => Some(v)
      case None => (var kv := Segment(segs[0]).value; if kv.0 == k then Some(kv.1) else None)
    decreases |segs|
  {
    if |segs| > 1 {
      var init, tail := segs[..|segs| - 1], segs[1..];
      assert init[0] == segs[0];
      assert init[1..] == tail[..|tail| - 1];
      assert tail[|tail| - 1] == segs[|segs| - 1];
      LastValueCons(init, k);
    } else {
      assert segs[1..] == [];
      assert segs[..|segs| - 1] == [];
    }
  }

  /** Folding segments: keys come out in order of first insertion. */
  lemma {:induction false} ParsePropsKeys(acc: Props, segs: seq<string>)
    requires ParseProps(acc, segs).Ok?
    ensures Keys(ParseProps(acc, segs).value) == FirstKeys(Keys(acc), segs)
    decreases |segs|
  {
    if segs != [] {
      var kv := Segment(segs[0]).value;
      ParsePropsKeys(Put(acc, kv.0, kv.1), segs[1..]);
    }
  }

  lemma {:induction false} FirstKeysDistinct(seen: seq<string>, segs: seq<string>)
    requires Distinct(seen)
    ensures Distinct(FirstKeys(seen, segs))
    decreases |segs|
  {
    if segs != [] {
      match Segment(segs[0])
      case Ok(kv) =>
        var seen' := if kv.0 in seen then seen else seen + [kv.0];
        FirstKeysDistinct(seen', segs[1..]);
      case Err(_) =>
        FirstKeysDistinct(seen, segs[1..]);
    }
  }

  /**
   * What `parseheader` promises: the name is the first comma segment without
   * leading '*' and spaces; each later segment defines an attribute whose value
   * is that of its last occurrence; keys are unique and in first-insertion order.
   */
  lemma ParseHeaderSpec(line: string, k: string)
    requires ParseHeader(line).Ok?
    ensures var h := ParseHeader(line).value;
      && h.name == LStrip(Split(line, ',')[0], {'*', ' '})
      && Lookup(h.props, k) == LastValue(Split(line, ',')[1..], k)
      && Keys(h.props) == FirstKeys([], Split(line, ',')[1..])
      && Distinct(Keys(h.props))
  {
    var segs := Split(line, ',')[1..];
    ParsePropsLookup([], segs, k);
    ParsePropsKeys([], segs);
    FirstKeysDistinct([], segs);
    match LastValue(segs, k)
    case Some(v) =>
    case None =>
  }

  /** `k=v` segments give `strip(k) -> infernumber(strip(v))`, bare ones give a flag. */
  lemma SegmentSpec(seg: string)
    ensures '=' !in seg ==> Segment(seg) == Ok((StripWs(seg), Flag))
    ensures '=' in seg ==> (Segment(seg).Ok? <==> |Split(seg, '=')| == 2)
    ensures '=' in seg && |Split(seg, '=')| == 2 ==>
      Segment(seg) == Ok((StripWs(Split(seg, '=')[0]), InferNumber(StripWs(Split(seg, '=')[1]))))
  {
  }

  // ------------------------------------------------------- attribute matcher

  /** Python `==` between two attribute values (numbers compare by value). */
  predicate SameValue(a: Value, b: Value)
  {
    match (a, b)
    case (Int(x), Int(y)) => x == y
    case (Int(x), Real(y)) => x as real == y
    case (Real(x), Int(y)) => x == y as real
    case (Real(x), Real(y)) => x == y
    case (Str(x), Str(y)) => x == y
    case (Flag, Flag) => true
    case _ => false
  }

  /** The attribute a clause key selects: by name, else by position when numeric. */
  function Select(p: Props, k: string): Option<Result<Value>>
  {
    match Lookup(p, k)
    case Some(v) => Some(Ok(v))
    case None =>
      if IsNumeric(k) then
        var n := DigitsValue(k);
        if n < |p| then Some(Ok(p[n].1)) else Some(Err(IndexError(n)))
      else None
  }

  /** A string value against a clause value: regex search or exact equality,
      a leading "ø" forcing regex for this value. */
  predicate TextMatches(value: string, v: string, regex: bool, re: Regex)
  {
    if StartsWith(v, [RegexEnabler]) then re.search(LStrip(v, {RegexEnabler}), value)
    else if regex then re.search(v, value)
    else v == value
  }

  /** One comma clause of an attribute filter. */
  function Clause(p: Props, kv: string, regex: bool, re: Regex): Result<bool>
  {
    if '=' in kv then
      var parts := Split(kv, '=');
      if |parts| != 2 then Err(UnpackError(kv))
      else
        var k, v := parts[0], parts[1];
        match Select(p, k)
        case None => Ok(false)
        case Some(Err(e)) => Err(e)
        case Some(Ok(val)) =>
          if val.Flag? then Ok(true)
          else if !val.Str? then Ok(SameValue(val, InferNumber(v)))
          else Ok(TextMatches(val.s, v, regex, re))
    else Ok(kv in Keys(p))
  }

  /** The clause results in order: the first false one gives false, the first bad
      one raises, and the clauses after it are never looked at. */
  function Verdict(rs: seq<Result<bool>>): Result<bool>
  {
    if rs == [] then Ok(true)
    else match rs[0]
      case Err(e) => Err(e)
      case Ok(false) => Ok(false)
      case Ok(true) => Verdict(rs[1..])
  }

  function ClauseResults(p: Props, kvs: seq<string>, regex: bool, re: Regex): (rs: seq<Result<bool>>)
    ensures |rs| == |kvs|
    ensures forall i :: 0 <= i < |kvs| ==> rs[i] == Clause(p, kvs[i], regex, re)
  {
    seq(|kvs|, i requires 0 <= i < |kvs| => Clause(p, kvs[i], regex, re))
  }

  /** `matchdict2str(dic, attrs, regex)` on a header's ordered attributes. */
  function MatchAttrs(p: Props, attrs: string, regex: bool, re: Regex): Result<bool>
  {
    Verdict(ClauseResults(p, Split(attrs, ','), regex, re))
  }

  /** The verdict is true iff every clause holds. */
  lemma {:induction false} VerdictAll(rs: seq<Result<bool>>)
    ensures Verdict(rs) == Ok(true) <==> forall i :: 0 <= i < |rs| ==> rs[i] == Ok(true)
  {
    if rs != [] {
      VerdictAll(rs[1..]);
      assert forall i :: 1 <= i < |rs| ==> rs[i] == rs[1..][i - 1];
    }
  }

  /** The verdict is false iff some clause is false and every clause before it holds. */
  lemma {:induction false} VerdictFalse(rs: seq<Result<bool>>)
    ensures Verdict(rs) == Ok(false) <==>
      exists i :: 0 <= i < |rs| && rs[i] == Ok(false) && forall j :: 0 <= j < i ==> rs[j] == Ok(true)
  {
    if rs != [] && rs[0] == Ok(true) {
      VerdictFalse(rs[1..]);
      var tl := rs[1..];
      if Verdict(rs) == Ok(false) {
        var i :| 0 <= i < |tl| && tl[i] == Ok(false) && forall j :: 0 <= j < i ==> tl[j] == Ok(true);
        assert rs[i + 1] == Ok(false);
        assert forall j :: 0 <= j < i + 1 ==> rs[j] == Ok(true) by {
          forall j | 0 <= j < i + 1 ensures rs[j] == Ok(true) {
            if j > 0 { assert rs[j] == tl[j - 1]; }
          }
        }
      }
      if exists i :: 0 <= i < |rs| && rs[i] == Ok(false) && forall j :: 0 <= j < i ==> rs[j] == Ok(true) {
        var i :| 0 <= i < |rs| && rs[i] == Ok(false) && forall j :: 0 <= j < i ==> rs[j] == Ok(true);
        assert i > 0;
        assert tl[i - 1] == Ok(false);
        assert forall j :: 0 <= j < i - 1 ==> tl[j] == Ok(true) by {
          forall j | 0 <= j < i - 1 ensures tl[j] == Ok(true) {
            assert tl[j] == rs[j + 1];
          }
        }
      }
    } else if rs != [] {
      assert rs[0] != Ok(true);
    }
  }

  /** `matchdict2str` is true iff every comma clause holds. */
  lemma MatchAttrsAll(p: Props, attrs: string, regex: bool, re: Regex)
    ensures MatchAttrs(p, attrs, regex, re) == Ok(true) <==>
      forall kv :: kv in Split(attrs, ',') ==> Clause(p, kv, regex, re) == Ok(true)
  {
    var kvs := Split(attrs, ',');
    VerdictAll(ClauseResults(p, kvs, regex, re));
    if !(forall kv :: kv in kvs ==> Clause(p, kv, regex, re) == Ok(true)) {
      var kv :| kv in kvs && Clause(p, kv, regex, re) != Ok(true);
      var i :| 0 <= i < |kvs| && kvs[i] == kv;
    }
  }

  /** `matchdict2str` is false iff some clause is false and all before it hold. */
  lemma MatchAttrsFalse(p: Props, attrs: string, regex: bool, re: Regex)
    ensures var kvs := Split(attrs, ',');
      MatchAttrs(p, attrs, regex, re) == Ok(false) <==>
      exists i :: 0 <= i < |kvs| && Clause(p, kvs[i], regex, re) == Ok(false) &&
        forall j :: 0 <= j < i ==> Clause(p, kvs[j], regex, re) == Ok(true)
  {
    var kvs := Split(attrs, ',');
    var rs := ClauseResults(p, kvs, regex, re);
    VerdictFalse(rs);
    if exists i :: 0 <= i < |kvs| && Clause(p, kvs[i], regex, re) == Ok(false) &&
        forall j :: 0 <= j < i ==> Clause(p, kvs[j], regex, re) == Ok(true) {
      var i :| 0 <= i < |kvs| && Clause(p, kvs[i], regex, re) == Ok(false) &&
        forall j :: 0 <= j < i ==> Clause(p, kvs[j], regex, re) == Ok(true);
      assert rs[i] == Ok(false) && forall j :: 0 <= j < i ==> rs[j] == Ok(true);
    }
  }

  /** Splitting `a + [c] + b` on `c`, when neither part holds `c`. */
  lemma SplitTwo(a: string, b: string, c: char)
    requires c !in a && c !in b
    ensures Split(a + [c] + b, c) == [a, b]
  {
    var s := a + [c] + b;
    assert s[|a|] == c;
    var i := IndexOf(s, c);
    assert s[..|a|] == a;
    assert i == |a|;
    assert s[..i] == a;
    assert s[i + 1..] == b;
  }

  /** A single `k=v` clause, read through `MatchAttrs`: the cases of `matchdict2str`. */
  lemma KeyValueClause(p: Props, k: string, v: string, regex: bool, re: Regex)
    requires ',' !in k && '=' !in k && ',' !in v && '=' !in v
    ensures var r := MatchAttrs(p, k + "=" + v, regex, re);
      && (k !in Keys(p) && !IsNumeric(k) ==> r == Ok(false))
      && (k in Keys(p) && Lookup(p, k) == Some(Flag) ==> r == Ok(true))
      && (k !in Keys(p) && IsNumeric(k) && DigitsValue(k) >= |p| ==> r == Err(IndexError(DigitsValue(k))))
      && (k !in Keys(p) && IsNumeric(k) && DigitsValue(k) < |p| && p[DigitsValue(k)].1.Flag? ==> r == Ok(true))
      && (k !in Keys(p) && IsNumeric(k) && DigitsValue(k) < |p| && !p[DigitsValue(k)].1.Flag? ==>
            r == Ok(if p[DigitsValue(k)].1.Str? then TextMatches(p[DigitsValue(k)].1.s, v, regex, re)
                    else SameValue(p[DigitsValue(k)].1, InferNumber(v))))
      && (k in Keys(p) && Lookup(p, k).value.Str? ==>
            r == Ok(TextMatches(Lookup(p, k).value.s, v, regex, re)))
      && (k in Keys(p) && !Lookup(p, k).value.Str? && !Lookup(p, k).value.Flag? ==>
            r == Ok(SameValue(Lookup(p, k).value, InferNumber(v))))
  {
    var kv := k + "=" + v;
    SplitTwo(k, v, '=');
    assert ',' !in kv;
    assert Split(kv, ',') == [kv];
    var rs := ClauseResults(p, [kv], regex, re);
    assert rs == [Clause(p, kv, regex, re)];
    assert MatchAttrs(p, kv, regex, re) == Verdict(rs);
    assert Verdict(rs) == (match Clause(p, kv, regex, re) case Err(e) => Err(e) case Ok(b) => Ok(b)) by {
      assert rs[1..] == [];
    }
    assert Split(kv, '=') == [k, v];
    if k !in Keys(p) && IsNumeric(k) && DigitsValue(k) < |p| {
      assert Lookup(p, k).None?;
      assert Select(p, k) == Some(Ok(p[DigitsValue(k)].1));
    }
  }

  /** A bare clause only asks for presence of the key. */
  lemma BareClause(p: Props, k: string, regex: bool, re: Regex)
    requires ',' !in k && '=' !in k
    ensures MatchAttrs(p, k, regex, re) == Ok(k in Keys(p))
  {
    assert Split(k, ',') == [k];
    var rs := ClauseResults(p, [k], regex, re);
    assert MatchAttrs(p, k, regex, re) == Verdict(rs);
    var b := k in Keys(p);
    assert rs == [Ok(b)];
    assert Verdict([Ok(b)]) == Ok(b) by {
      assert [Ok(b)][1..] == [];
    }
  }

  /** Exact mode compares whole strings; "ø" switches one value to regex. */
  lemma TextMatchesModes(value: string, v: string, re: Regex)
    ensures !StartsWith(v, [RegexEnabler]) ==> (TextMatches(value, v, false, re) <==> v == value)
    ensures StartsWith(v, [RegexEnabler]) ==>
      (TextMatches(value, v, false, re) <==> re.search(LStrip(v, {RegexEnabler}), value))
  {
  }

  // --------------------------------------------------------- content matcher

  /** `matchcontent`: some text line of the content matches (regex search or equality). */
  function MatchContent(texts: seq<string>, m: string, regex: bool, re: Regex): (r: bool)
    ensures r <==> exists i :: 0 <= i < |texts| && (if regex then re.search(m, texts[i]) else texts[i] == m)
  {
    if texts == [] then false
    else
      var hit := if regex then re.search(m, texts[0]) else texts[0] == m;
      assert forall i :: 1 <= i < |texts| ==> texts[i] == texts[1..][i - 1];
      hit || MatchContent(texts[1..], m, regex, re)
  }
}
