/** What the conversions of miniprintf.c mean: what each reads of its format, which argument it takes, and
    what it prints of it. */
module PrintMeaning {
  import opened PrintSpec
  import opened PrintFormats

  // ---- numerals ----

  // The digits of base ten, or of base sixteen with small or capital letters.
  predicate DigitOf(c: char, hex: bool, lower: bool) {
    '0' <= c <= '9' || (hex && (if lower then 'a' <= c <= 'f' else 'A' <= c <= 'F'))
  }

  /** The way to write a number: digits of its base and case that read back as the number, the first of them a
      zero only if it is the only one. */
  predicate Numeral(s: string, v: nat, hex: bool, lower: bool) {
    && s != "" && (forall i :: 0 <= i < |s| ==> DigitOf(s[i], hex, lower))
    && (s[0] == '0' ==> |s| == 1) && Number(s, hex) == v
  }

  lemma {:induction false} DigitsAreDigits(v: nat, hex: bool, lower: bool)
    ensures forall i :: 0 <= i < |Digits(v, hex, lower)| ==> DigitOf(Digits(v, hex, lower)[i], hex, lower)
    decreases v
  {
    if High(v, hex) > 0 {
      DigitsAreDigits(High(v, hex), hex, lower);
    }
  }

  lemma {:induction false} DigitsAreNumeral(v: nat, hex: bool, lower: bool)
    ensures Numeral(Digits(v, hex, lower), v, hex, lower)
  {
    DigitsReadBack(v, hex, lower);
    DigitsAreDigits(v, hex, lower);
  }

  // What does not begin with a zero is not zero.
  lemma {:induction false} NumberPositive(s: string, hex: bool, lower: bool)
    requires s != "" && s[0] != '0' && forall i :: 0 <= i < |s| ==> DigitOf(s[i], hex, lower)
    ensures Number(s, hex) > 0
  {
    if |s| > 1 {
      NumberPositive(s[..|s| - 1], hex, lower);
    } else {
      assert s[..0] == "" && DigitOf(s[0], hex, lower);
    }
  }

  lemma {:induction false} SameDigit(c: char, d: char, hex: bool, lower: bool)
    requires DigitOf(c, hex, lower) && DigitOf(d, hex, lower) && DigitValue(c) == DigitValue(d)
    ensures c == d
  {
  }

  lemma {:induction false} SameAppended(g: nat, c: nat, h: nat, d: nat, hex: bool)
    requires Append(g, c, hex) == Append(h, d, hex) && c < (if hex then 16 else 10) && d < (if hex then 16 else 10)
    ensures g == h && c == d
  {
  }

  lemma {:induction false} LastDigits(s: string, t: string, hex: bool, lower: bool)
    requires s != "" && t != "" && DigitOf(s[|s| - 1], hex, lower) && DigitOf(t[|t| - 1], hex, lower)
    requires Number(s, hex) == Number(t, hex)
    ensures s[|s| - 1] == t[|t| - 1] && Number(s[..|s| - 1], hex) == Number(t[..|t| - 1], hex)
  {
    var (c, d) := (s[|s| - 1], t[|t| - 1]);
    SameAppended(Number(s[..|s| - 1], hex), DigitValue(c), Number(t[..|t| - 1], hex), DigitValue(d), hex);
    SameDigit(c, d, hex, lower);
  }

  /** There is only one way to write a number. */
  lemma {:induction false} NumeralUnique(s: string, t: string, v: nat, hex: bool, lower: bool)
    requires Numeral(s, v, hex, lower) && Numeral(t, v, hex, lower)
    ensures s == t
    decreases |s|
  {
    var s', t' := s[..|s| - 1], t[..|t| - 1];
    LastDigits(s, t, hex, lower);
    if s' == "" && t' == "" {
    } else if s' == "" {
      NumberPositive(t', hex, lower);
    } else if t' == "" {
      NumberPositive(s', hex, lower);
    } else {
      NumeralUnique(s', t', Number(s', hex), hex, lower);
    }
  }

  // ---- what is printed ----

  // What fills up `text` to the width of a conversion.
  predicate Fills(fill: string, item: Item, text: string)
    requires item.Field?
  {
    && |fill| == (if item.width > |text| then item.width - |text| else 0)
    && forall i :: 0 <= i < |fill| ==> fill[i] == item.pad
  }

  // A number filled up to the width of a conversion.
  lemma {:induction false} NumeralPadded(item: Item, v: nat, hex: bool, lower: bool)
    returns (fill: string, digits: string)
    requires item.Field?
    ensures Padded(item, Digits(v, hex, lower)) == fill + digits && digits == Digits(v, hex, lower)
    ensures Numeral(digits, v, hex, lower) && Fills(fill, item, digits)
    ensures item.pad == '0' ==> Number(fill + digits, hex) == v
  {
    digits := Digits(v, hex, lower);
    fill := Padding(item.pad, item.width, digits);
    DigitsAreNumeral(v, hex, lower);
    PaddedNumber(item.pad, item.width, digits, hex);
  }

  /** An unsigned number is printed in base ten or sixteen, filled up from the left, if with zeros without
      changing the number; %x and %p print small letters, %X prints capitals, unless there was a %x or a %p
      before it. A pointer has 0x in front. */
  lemma {:induction false} WordPrinted(item: Item, args: seq<Arg>, k: nat, lower: bool)
    returns (fill: string, digits: string)
    requires item.Field? && item.kind in {'u', 'x', 'X', 'p'} && Suits(item, args, k)
    ensures Rendered(item, args, k, lower) == (if item.kind == 'p' then "0x" else "") + (fill + digits)
    ensures Numeral(digits, args[k].w, item.kind != 'u', item.kind != 'X' || lower) && Fills(fill, item, digits)
    ensures item.pad == '0' ==> Number(fill + digits, item.kind != 'u') == args[k].w
  {
    if item.kind == 'u' {
      fill, digits := NumeralPadded(item, args[k].w, false, lower);
    } else {
      fill, digits := NumeralPadded(item, args[k].w, true, Lower(item, lower));
    }
    assert "" + (fill + digits) == fill + digits;
  }

  /** A signed number is printed as the sign, if it is negative or one is asked for, the fill, and the digits
      of its magnitude, which a fill of zeros does not change. */
  lemma {:induction false} IntPrinted(item: Item, args: seq<Arg>, k: nat, lower: bool)
    returns (fill: string, digits: string)
    requires item.Field? && item.kind == 'd' && Suits(item, args, k)
    ensures var w := args[k].w;
      var (negative, magnitude) := (w >= 0x8000_0000, if w < 0x8000_0000 then w else 0x1_0000_0000 - w);
      && Rendered(item, args, k, lower) ==
           (if negative then "-" else if item.sgn == '+' then "+" else "") + (fill + digits)
      && Numeral(digits, magnitude, false, lower) && Fills(fill, item, digits)
      && (item.pad == '0' ==> Number(fill + digits, false) == magnitude)
  {
    fill, digits := NumeralPadded(item, Abs(Signed(args[k].w)), false, lower);
  }

  /** A string is printed whole, filled up from the left, or from the right after a minus sign. */
  lemma {:induction false} TextPrinted(item: Item, args: seq<Arg>, k: nat, lower: bool) returns (fill: string)
    requires item.Field? && item.kind == 's' && Suits(item, args, k)
    ensures Fills(fill, item, args[k].s)
    ensures Rendered(item, args, k, lower) == if item.sgn == '-' then args[k].s + fill else fill + args[k].s
  {
    fill := Padding(item.pad, item.width, args[k].s);
  }

  /** Characters are printed as they are, whatever the width: one that is copied, one given as an argument, of
      which the low eight bits count, a percent sign, and behind a mark the letter of a conversion that
      there is not. */
  lemma {:induction false} CharPrinted(item: Item, args: seq<Arg>, k: nat, lower: bool)
    requires Suits(item, args, k) && (item.Field? ==> item.kind !in {'u', 'x', 'X', 'p', 'd', 's'})
    ensures var s := Rendered(item, args, k, lower);
      && (item.Literal? ==> s == [item.c])
      && (item.Field? && item.kind == 'c' ==> |s| == 1 && args[k].w % 256 == s[0] as int)
      && (item.Field? && item.kind == '%' ==> s == "%")
      && (item.Field? && item.kind !in {'c', '%'} ==> s == ['%', '?', item.kind])
  {
  }

  // ---- which argument it is printed of ----

  // The conversions that take an argument, each of them one.
  const TAKING := {'c', 'u', 'd', 'p', 'x', 'X', 's'}

  // The number of arguments taken by the first `n` items.
  function Place(items: seq<Item>, n: nat): nat
    requires n <= |items|
  {
    if n == 0 then 0
    else Place(items, n - 1) + if items[n - 1].Field? && items[n - 1].kind in TAKING then 1 else 0
  }

  // Hexadecimal digits were switched to small letters by then.
  predicate Switched(items: seq<Item>, n: nat)
    requires n <= |items|
  {
    exists i :: 0 <= i < n && items[i].Field? && items[i].kind in {'x', 'p'}
  }

  ghost predicate SuitsAt(items: seq<Item>, args: seq<Arg>, n: nat)
    requires n <= |items|
  {
    n == 0 || (SuitsAt(items, args, n - 1) && Suits(items[n - 1], args, Place(items, n - 1)))
  }

  // What the first `n` items print, each of them on its own.
  ghost function Pieces(items: seq<Item>, args: seq<Arg>, n: nat): string
    requires n <= |items| && SuitsAt(items, args, n)
  {
    if n == 0 then ""
    else Pieces(items, args, n - 1) + Rendered(items[n - 1], args, Place(items, n - 1), Switched(items, n - 1))
  }

  // The engine behind the first `n` items.
  ghost function EngineAt(items: seq<Item>, args: seq<Arg>, n: nat): Engine
    requires n <= |items| && SuitsAt(items, args, n)
  {
    Engine(Place(items, n), Switched(items, n), Pieces(items, args, n))
  }

  lemma {:induction false} SwitchedNext(items: seq<Item>, n: nat)
    requires n < |items|
    ensures Switched(items, n + 1) == Lower(items[n], Switched(items, n))
  {
    var item := items[n];
    if item.Field? && item.kind in {'x', 'p'} {
      assert Switched(items, n + 1);
    } else if Switched(items, n) {
      var i :| 0 <= i < n && items[i].Field? && items[i].kind in {'x', 'p'};
      assert Switched(items, n + 1);
    }
  }

  lemma {:induction false} PlaceNext(items: seq<Item>, n: nat)
    requires n < |items|
    ensures Place(items, n + 1) == Place(items, n) + Consumed(items[n])
  {
  }

  lemma {:induction false} NextEngine(items: seq<Item>, args: seq<Arg>, n: nat)
    requires n < |items| && SuitsAt(items, args, n) && Suits(items[n], args, Place(items, n))
    ensures SuitsAt(items, args, n + 1)
    ensures EngineAt(items, args, n + 1) == Step(EngineAt(items, args, n), items[n], args)
  {
    PlaceNext(items, n);
    SwitchedNext(items, n);
  }

  // One round of the engine.
  lemma {:induction false} RunStep(e: Engine, items: seq<Item>, args: seq<Arg>, n: nat)
    requires n < |items| && AllSuit(items[n..], args, e.k)
    ensures Suits(items[n], args, e.k) && AllSuit(items[n + 1..], args, Step(e, items[n], args).k)
    ensures Run(e, items[n..], args) == Run(Step(e, items[n], args), items[n + 1..], args)
  {
    assert items[n..][0] == items[n] && items[n..][1..] == items[n + 1..];
  }

  lemma {:induction false} RestPrinted(items: seq<Item>, args: seq<Arg>, n: nat)
    requires n <= |items| && SuitsAt(items, args, n) && AllSuit(items[n..], args, Place(items, n))
    ensures SuitsAt(items, args, |items|)
    ensures Run(EngineAt(items, args, n), items[n..], args) == EngineAt(items, args, |items|)
    decreases |items| - n
  {
    if n < |items| {
      RunStep(EngineAt(items, args, n), items, args, n);
      NextEngine(items, args, n);
      RestPrinted(items, args, n + 1);
    }
  }

  /** A format prints what its items print, one after the other: each conversion that takes an argument takes
      the next one, and the case of hexadecimal digits is the only other thing that carries over. */
  lemma {:induction false} PrintsPieces(items: seq<Item>, args: seq<Arg>)
    requires AllSuit(items, args, 0)
    ensures SuitsAt(items, args, |items|) && Render(items, args) == Pieces(items, args, |items|)
  {
    assert items[0..] == items;
    RestPrinted(items, args, 0);
  }

  // ---- what a conversion reads ----

  predicate AllDigits(s: string) { forall i :: 0 <= i < |s| ==> Digit(s[i]) }

  lemma {:induction false} NumberSnoc(s: string, c: char)
    requires Digit(c)
    ensures Number(s + [c], false) == Number(s, false) * 10 + (c - '0') as nat
  {
    assert (s + [c])[..|s|] == s;
  }

  // The width is the number that its digits spell.
  lemma {:induction false} WidthSpelt(f: string, i: nat, read: string, digits: string)
    requires i + |digits| <= |f| && f[i..i + |digits|] == digits && AllDigits(digits)
    requires !Digit(At(f, i + |digits|))
    ensures WidthFrom(f, i, Number(read, false)) == (Number(read + digits, false), i + |digits|)
    decreases |digits|
  {
    if digits == "" {
      assert read + digits == read;
    } else {
      var c, rest := digits[0], digits[1..];
      assert f[i] == f[i..i + |digits|][0] == c && f[i + 1..i + 1 + |rest|] == rest;
      NumberSnoc(read, c);
      assert read + [c] + rest == read + digits;
      WidthSpelt(f, i + 1, read + [c], rest);
    }
  }

  // How a conversion is spelt behind its percent sign: a sign or none ('\0'), a zero or none, the digits of a
  // width, which do not begin with that zero, an l or none, and a letter.
  datatype Spelling = Spelling(sgn: char, zero: bool, digits: string, long: bool, kind: char)
  {
    predicate Proper() {
      && (sgn == '\0' || Sign(sgn)) && AllDigits(digits) && (!zero && digits != "" ==> digits[0] != '0')
      && kind != '\0' && (!long ==> !Digit(kind) && kind != 'l' && (Start() == 0 && digits == "" ==> !Sign(kind)))
    }

    // The places of the zero, of the digits, behind them, and of the letter.
    function AfterSign(): nat { if sgn == '\0' then 0 else 1 }

    function Start(): nat { AfterSign() + if zero then 1 else 0 }

    function End(): nat { Start() + |digits| }

    function Letter(): nat { End() + if long then 1 else 0 }

    function Text(): (t: string)
      ensures |t| == Letter() + 1
    {
      (if sgn == '\0' then "" else [sgn]) + (if zero then "0" else "") + digits + (if long then "l" else "") + [kind]
    }
  }

  // The format has it from index `i` on.
  predicate SpeltAt(f: string, i: nat, p: Spelling) {
    && i + p.Letter() < |f| && f[i + p.Letter()] == p.kind && (p.long ==> f[i + p.End()] == 'l')
    && (p.sgn != '\0' ==> f[i] == p.sgn) && (p.zero ==> f[i + p.AfterSign()] == '0')
    && f[i + p.Start()..i + p.End()] == p.digits
  }

  lemma {:induction false} TextSpelt(f: string, i: nat, p: Spelling)
    requires i <= |f| && p.Text() <= f[i..]
    ensures SpeltAt(f, i, p)
  {
    var t := p.Text();
    TextParts(p);
    assert forall x :: 0 <= x < |t| ==> f[i + x] == t[x];
    SamePart(f, i, t, p.Start(), p.End());
  }

  lemma {:induction false} SamePart(f: string, i: nat, t: string, a: nat, b: nat)
    requires i <= |f| && t <= f[i..] && a <= b <= |t|
    ensures i + b <= |f| && f[i + a..i + b] == t[a..b]
  {
    assert forall x :: 0 <= x < |t| ==> f[i + x] == t[x];
  }

  lemma {:induction false} TextParts(p: Spelling)
    ensures SpeltAt(p.Text(), 0, p)
  {
    var t := p.Text();
    var (before, after) :=
      ((if p.sgn == '\0' then "" else [p.sgn]) + if p.zero then "0" else "", (if p.long then "l" else "") + [p.kind]);
    assert t == before + p.digits + after && |before| == p.Start();
    assert t[p.Start()..p.End()] == p.digits;
  }

  // What follows the sign and the zero is neither, and what follows the digits is none.
  lemma {:induction false} AtStart(f: string, i: nat, p: Spelling)
    requires p.Proper() && SpeltAt(f, i, p)
    ensures !p.zero ==> f[i + p.Start()] != '0'
    ensures p.Start() == 0 ==> !Sign(f[i])
    ensures !Digit(f[i + p.End()])
  {
    assert p.End() == p.Start() + |p.digits| && p.Letter() == p.End() + if p.long then 1 else 0;
    assert !Digit(f[i + p.End()]);
    if p.digits != "" {
      assert f[i + p.Start()] == f[i + p.Start()..i + p.End()][0] == p.digits[0];
      assert Digit(p.digits[0]);
    } else if p.long {
      assert f[i + p.Start()] == 'l';
    } else {
      assert f[i + p.Start()] == p.kind;
    }
  }

  // Places are found one behind the other.
  predicate Seen(f: string, i: nat, sgn: char, zero: bool) {
    && i < |f| && (sgn == '\0' <==> !Sign(f[i])) && (sgn != '\0' ==> f[i] == sgn)
    && (if sgn == '\0' then zero == (f[i] == '0') else i + 1 < |f| && zero == (f[i + 1] == '0'))
  }

  lemma {:induction false} SpeltSeen(f: string, i: nat, p: Spelling)
    requires p.Proper() && SpeltAt(f, i, p)
    ensures Seen(f, i, p.sgn, p.zero)
  {
    AtStart(f, i, p);
    if p.sgn == '\0' {
      if p.zero {
      }
    } else if p.zero {
    }
  }

  lemma {:induction false} SeenFlags(f: string, i: nat, sgn: char, zero: bool, start: nat, width: nat, next: nat)
    requires Seen(f, i, sgn, zero) && start == i + (if sgn == '\0' then 0 else 1) + if zero then 1 else 0
    requires WidthFrom(f, start, 0) == (width, next)
    ensures ParseFlags(f, i) == Flags(sgn, if zero then '0' else ' ', width, next)
  {
    if sgn == '\0' {
    } else if zero {
    }
  }

  lemma {:induction false} SpeltWidth(f: string, i: nat, p: Spelling)
    requires p.Proper() && SpeltAt(f, i, p)
    ensures WidthFrom(f, i + p.Start(), 0) == (Number(p.digits, false), i + p.End())
  {
    AtStart(f, i, p);
    WidthOf(f, i + p.Start(), p.digits);
  }

  lemma {:induction false} WidthOf(f: string, i: nat, digits: string)
    requires i + |digits| <= |f| && f[i..i + |digits|] == digits && AllDigits(digits)
    requires !Digit(At(f, i + |digits|))
    ensures WidthFrom(f, i, 0) == (Number(digits, false), i + |digits|)
  {
    assert "" + digits == digits;
    WidthSpelt(f, i, "", digits);
  }

  lemma {:induction false} SpeltFlags(f: string, i: nat, p: Spelling)
    requires p.Proper() && SpeltAt(f, i, p)
    ensures ParseFlags(f, i) == Flags(p.sgn, if p.zero then '0' else ' ', Number(p.digits, false), i + p.End())
  {
    SpeltSeen(f, i, p);
    SpeltWidth(f, i, p);
    SeenFlags(f, i, p.sgn, p.zero, i + p.Start(), Number(p.digits, false), i + p.End());
  }

  /** A conversion is read as it is spelt: with its sign, zeros or spaces to fill with, the width that its
      digits spell, and its letter; the l makes no difference. */
  lemma {:induction false} ReadsSpelling(f: string, i: nat, p: Spelling)
    requires i <= |f| && p.Proper() && p.Text() <= f[i..]
    ensures ParseField(f, i) ==
      Parsed(Field(p.kind, if p.zero then '0' else ' ', p.sgn, Number(p.digits, false)), i + |p.Text()|)
  {
    TextSpelt(f, i, p);
    SpeltFlags(f, i, p);
  }
}
