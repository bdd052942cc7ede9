/** What the printf engine of miniprintf.c prints. */
module PrintSpec {

  // int, unsigned and long are words of 32 bits on this target.
  const WORDS := 0x1_0000_0000
  type Word = x: int | 0 <= x < 0x1_0000_0000

  datatype Arg = Value(w: Word) | Text(s: string)

  // ---- digits ----

  function DigitChar(d: nat, lower: bool): char
    requires d < 16
  {
    if d <= 9 then '0' + d as char else (if lower then 'a' else 'A') + (d - 10) as char
  }

  function DigitValue(c: char): nat {
    if '0' <= c <= '9' then (c - '0') as nat
    else if 'a' <= c <= 'f' then (c - 'a') as nat + 10
    else if 'A' <= c <= 'F' then (c - 'A') as nat + 10
    else 0
  }

  // The last digit of a number, and what the others make.
  function Low(v: nat, hex: bool): (d: nat)
    ensures d < 16
  {
    if hex then v % 16 else v % 10
  }

  function High(v: nat, hex: bool): (h: nat)
    ensures v > 0 ==> h < v
  {
    if hex then v / 16 else v / 10
  }

  function Append(h: nat, d: nat, hex: bool): nat { if hex then 16 * h + d else 10 * h + d }

  // The do-while loops: the low digits last.
  function Digits(v: nat, hex: bool, lower: bool): (s: string)
    ensures s != ""
    decreases v
  {
    (if High(v, hex) == 0 then "" else Digits(High(v, hex), hex, lower)) + [DigitChar(Low(v, hex), lower)]
  }

  function Number(s: string, hex: bool): nat {
    if s == "" then 0 else Append(Number(s[..|s| - 1], hex), DigitValue(s[|s| - 1]), hex)
  }

  /** The digits printed read back as the number, and there is no leading zero. */
  lemma {:induction false} DigitsReadBack(v: nat, hex: bool, lower: bool)
    ensures Number(Digits(v, hex, lower), hex) == v
    ensures Digits(v, hex, lower)[0] == '0' <==> v == 0
    ensures v == 0 ==> Digits(v, hex, lower) == "0"
    decreases v
  {
    var s, h := Digits(v, hex, lower), High(v, hex);
    if h > 0 {
      DigitsReadBack(h, hex, lower);
      assert s[..|s| - 1] == Digits(h, hex, lower);
    } else {
      assert s[..|s| - 1] == "";
    }
  }

  // The numbers of at most `k` digits.
  function Limit(k: nat, hex: bool): nat { if k == 0 then 1 else Append(Limit(k - 1, hex), 0, hex) }

  lemma {:induction false} DigitsFit(v: nat, hex: bool, lower: bool, k: nat)
    requires k > 0 && v < Limit(k, hex)
    ensures |Digits(v, hex, lower)| <= k
    decreases v
  {
    if High(v, hex) > 0 {
      assert Limit(0, hex) == 1;
      assert High(v, hex) < Limit(k - 1, hex);
      DigitsFit(High(v, hex), hex, lower, k - 1);
    }
  }

  lemma {:induction false} LimitOf(k: nat, n: nat, hex: bool)
    requires Limit(k, hex) >= n
    ensures Limit(k + 1, hex) >= 10 * n
  {
  }

  /** A word has at most ten digits, which fit the buffer of 40 bytes with their terminator. */
  lemma {:induction false} WordDigits(v: nat, hex: bool, lower: bool)
    requires v < WORDS
    ensures |Digits(v, hex, lower)| <= 10
  {
    LimitOf(0, 1, hex);
    LimitOf(1, 10, hex);
    LimitOf(2, 100, hex);
    LimitOf(3, 1000, hex);
    LimitOf(4, 10000, hex);
    LimitOf(5, 100000, hex);
    LimitOf(6, 1000000, hex);
    LimitOf(7, 10000000, hex);
    LimitOf(8, 100000000, hex);
    LimitOf(9, 1000000000, hex);
    DigitsFit(v, hex, lower, 10);
  }

  function Repeat(c: char, n: nat): (s: string)
    ensures |s| == n && forall i :: 0 <= i < n ==> s[i] == c
  {
    seq(n, _ => c)
  }

  // mini_pad(): what is missing from the width.
  function Padding(pad: char, width: nat, text: string): string {
    if width > |text| then Repeat(pad, width - |text|) else ""
  }

  /** Padding fills the field to its width with the fill character and leaves the text, and zeros do not
      change the number. */
  lemma {:induction false} PaddedNumber(pad: char, width: nat, text: string, hex: bool)
    ensures var (fill, s) := (Padding(pad, width, text), Padding(pad, width, text) + text);
      && |s| == (if width > |text| then width else |text|) && s[|fill|..] == text
      && (forall i :: 0 <= i < |fill| ==> s[i] == pad)
      && (pad == '0' ==> Number(s, hex) == Number(text, hex))
  {
    if pad == '0' {
      ZerosInFront(if width > |text| then width - |text| else 0, text, hex);
    }
  }

  lemma {:induction false} ZerosInFront(n: nat, text: string, hex: bool)
    ensures Number(Repeat('0', n) + text, hex) == Number(text, hex)
    decreases |text|, n
  {
    var s := Repeat('0', n) + text;
    if text != "" {
      assert s[..|s| - 1] == Repeat('0', n) + text[..|text| - 1];
      ZerosInFront(n, text[..|text| - 1], hex);
    } else if n > 0 {
      assert s[..|s| - 1] == Repeat('0', n - 1) + "";
      ZerosInFront(n - 1, "", hex);
    } else {
      assert s == "";
    }
  }

  // ---- formats ----

  // What a format consists of: characters that are copied, and conversions.
  datatype Item = Literal(c: char) | Field(kind: char, pad: char, sgn: char, width: nat)

  // The character at an index; a format ends with a null character.
  function At(f: string, i: nat): char { if i < |f| then f[i] else '\0' }

  // The digits of a width, from index `i` on, and the index after them.
  function WidthFrom(f: string, i: nat, width: nat): (r: (nat, nat))
    ensures r.1 >= i && (i <= |f| ==> r.1 <= |f|)
    decreases |f| - i
  {
    if i < |f| && '0' <= f[i] <= '9' then WidthFrom(f, i + 1, width * 10 + (f[i] - '0') as nat) else (width, i)
  }

  // A conversion, and the index after it. `Ended`: the format ends before the conversion does.
  // `RunsOff`: it ends right after an l, and the engine reads on behind its end.
  datatype Parsed = Parsed(item: Item, next: nat) | Ended | RunsOff

  // The sign, the fill and the width of a conversion, and the index after them.
  datatype Flags = Flags(sgn: char, pad: char, width: nat, next: nat)

  function ParseFlags(f: string, i: nat): (r: Flags)
    ensures r.next >= i && (i <= |f| ==> r.next <= |f|)
  {
    var sgn := if At(f, i) == '+' || At(f, i) == '-' then At(f, i) else '\0';
    var j := if sgn != '\0' then i + 1 else i;
    var pad := if At(f, j) == '0' then '0' else ' ';
    var (width, next) := WidthFrom(f, if pad == '0' then j + 1 else j, 0);
    Flags(sgn, pad, width, next)
  }

  // What follows a percent sign at index `i - 1`.
  function ParseField(f: string, i: nat): (p: Parsed)
    ensures p.Parsed? ==> i < p.next <= |f| && p.item.Field?
  {
    var r := ParseFlags(f, i);
    var m := if At(f, r.next) == 'l' then r.next + 1 else r.next;
    if At(f, r.next) == '\0' then Ended
    else if At(f, m) == '\0' then RunsOff
    else Parsed(Field(f[m], r.pad, r.sgn, r.width), m + 1)
  }

  // The items of a format from index `i` on, if the engine stays inside it.
  function ItemsFrom(f: string, i: nat): (r: (bool, seq<Item>))
    decreases |f| - i
  {
    if i >= |f| || f[i] == '\0' then (true, [])
    else if f[i] != '%' then
      var (ok, rest) := ItemsFrom(f, i + 1);
      (ok, [Literal(f[i])] + rest)
    else
      match ParseField(f, i + 1)
      case Ended => (true, [])
      case RunsOff => (false, [])
      case Parsed(item, next) =>
        var (ok, rest) := ItemsFrom(f, next);
        (ok, [item] + rest)
  }

  // ---- what is printed ----

  predicate TakesValue(kind: char) { kind in {'c', 'u', 'd', 'p', 'x', 'X'} }

  function Consumed(item: Item): nat {
    if item.Field? && (TakesValue(item.kind) || item.kind == 's') then 1 else 0
  }

  // A string of C.
  predicate NoNull(f: string) { forall i :: 0 <= i < |f| ==> f[i] != '\0' }

  // Argument `k` is of the right kind; the smallest integer, which has no negation, is left out.
  predicate Suits(item: Item, args: seq<Arg>, k: nat) {
    item.Field? ==>
      && (TakesValue(item.kind) ==> k < |args| && args[k].Value?)
      && (item.kind == 'd' ==> args[k].w != WORDS / 2)
      && (item.kind == 's' ==> k < |args| && args[k].Text? && NoNull(args[k].s))
  }

  predicate AllSuit(items: seq<Item>, args: seq<Arg>, k: nat)
    decreases |items|
  {
    items == [] || (Suits(items[0], args, k) && AllSuit(items[1..], args, k + Consumed(items[0])))
  }

  // The value of an int.
  function Signed(w: Word): int { if w < WORDS / 2 then w else w - WORDS }

  function Abs(x: int): nat { if x < 0 then -x else x }

  function Padded(item: Item, text: string): string
    requires item.Field?
  {
    Padding(item.pad, item.width, text) + text
  }

  // %x and %p switch the engine to lower case for the rest of the format.
  function Lower(item: Item, lower: bool): bool { lower || (item.Field? && item.kind in {'x', 'p'}) }

  function Rendered(item: Item, args: seq<Arg>, k: nat, lower: bool): string
    requires Suits(item, args, k)
  {
    match item
    case Literal(c) => [c]
    case Field(kind, pad, sgn, width) =>
      if kind == 'c' then [(args[k].w % 256) as char]
      else if kind == 'u' then Padded(item, Digits(args[k].w, false, lower))
      else if kind == 'd' then
        SignOf(Signed(args[k].w), sgn) + Padded(item, Digits(Abs(Signed(args[k].w)), false, lower))
      else if kind == 'p' then "0x" + Padded(item, Digits(args[k].w, true, true))
      else if kind == 'x' || kind == 'X' then Padded(item, Digits(args[k].w, true, Lower(item, lower)))
      else if kind == 's' then
        (if sgn != '-' then Padded(item, args[k].s) else args[k].s + Padding(pad, width, args[k].s))
      else if kind == '%' then "%"
      else "%?" + [kind]
  }

  // Where the engine stands: the next argument, the case of hexadecimal digits, and what was printed.
  datatype Engine = Engine(k: nat, lower: bool, text: string)

  function Step(e: Engine, item: Item, args: seq<Arg>): Engine
    requires Suits(item, args, e.k)
  {
    Engine(e.k + Consumed(item), Lower(item, e.lower), e.text + Rendered(item, args, e.k, e.lower))
  }

  function Run(e: Engine, items: seq<Item>, args: seq<Arg>): Engine
    requires AllSuit(items, args, e.k)
    decreases |items|
  {
    if items == [] then e else Run(Step(e, items[0], args), items[1..], args)
  }

  // What a format prints.
  function Render(items: seq<Item>, args: seq<Arg>): string
    requires AllSuit(items, args, 0)
  {
    Run(Engine(0, false, ""), items, args).text
  }

  function ConsumedAll(items: seq<Item>): nat
    decreases |items|
  {
    if items == [] then 0 else Consumed(items[0]) + ConsumedAll(items[1..])
  }

  ghost predicate AnyLower(items: seq<Item>) {
    exists i :: 0 <= i < |items| && Lower(items[i], false)
  }

  lemma {:induction false} AfterRun(e: Engine, items: seq<Item>, args: seq<Arg>)
    requires AllSuit(items, args, e.k)
    ensures Run(e, items, args).k == e.k + ConsumedAll(items)
    ensures Run(e, items, args).lower <==> e.lower || AnyLower(items)
    ensures e.text <= Run(e, items, args).text
    decreases |items|
  {
    if items != [] {
      AfterRun(Step(e, items[0], args), items[1..], args);
    }
  }

  // All that is carried over, besides the text, is the place in the arguments and the case of
  // hexadecimal digits.
  lemma {:induction false} RunAppend(e: Engine, a: seq<Item>, b: seq<Item>, args: seq<Arg>)
    requires AllSuit(a, args, e.k) && AllSuit(b, args, e.k + ConsumedAll(a))
    ensures AllSuit(a + b, args, e.k) && AllSuit(b, args, Run(e, a, args).k)
    ensures Run(e, a + b, args) == Run(Run(e, a, args), b, args)
    decreases |a|
  {
    AfterRun(e, a, args);
    if a == [] {
      assert a + b == b;
    } else {
      assert (a + b)[0] == a[0] && (a + b)[1..] == a[1..] + b;
      RunAppend(Step(e, a[0], args), a[1..], b, args);
    }
  }

  function SignOf(v: int, sgn: char): string { if v < 0 then "-" else if sgn == '+' then "+" else "" }
}
