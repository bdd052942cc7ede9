/** miniprintf.c as it works: one engine, and the sinks it writes to. */
module Printer {
  import opened PrintSpec

  // In cooked mode every line feed is followed by a carriage return.
  function CookOne(c: char): string { if c == '\n' then "\n\r" else [c] }

  function Cook(s: string): string {
    if s == "" then "" else CookOne(s[0]) + Cook(s[1..])
  }

  // The line feeds of a text.
  function Feeds(s: string): nat {
    if s == "" then 0 else (if s[0] == '\n' then 1 else 0) + Feeds(s[1..])
  }

  lemma {:induction false} CookSnoc(s: string, c: char)
    ensures Cook(s + [c]) == Cook(s) + CookOne(c)
  {
    if s == "" {
      assert s + [c] == [c] && [c][1..] == "";
    } else {
      assert (s + [c])[1..] == s[1..] + [c];
      CookSnoc(s[1..], c);
    }
  }

  /** Cooking adds one character for each line feed and nothing else. */
  lemma {:induction false} CookCount(s: string)
    ensures |Cook(s)| == |s| + Feeds(s)
  {
    if s != "" {
      CookCount(s[1..]);
    }
  }

  // What a terminal makes of it: the carriage return behind each line feed is dropped.
  function Uncook(s: string): string {
    if s == "" then "" else [s[0]] + Uncook(if s[0] == '\n' && |s| > 1 && s[1] == '\r' then s[2..] else s[1..])
  }

  /** Cooking loses nothing. */
  lemma {:induction false} CookUncook(s: string)
    ensures Uncook(Cook(s)) == s
  {
    if s != "" {
      CookUncook(s[1..]);
      var t := Cook(s);
      assert t[|CookOne(s[0])|..] == Cook(s[1..]);
      assert s == [s[0]] + s[1..];
    }
  }

  // mini_putc() with the user's putc() in uncooked or cooked mode, or mini_sputc().
  datatype Mode = Uncooked | Cooked | Buffered

  class Sink {
    const mode: Mode
    // What the user's putc() has got, and struct s_internal.
    var output: string
    var count: nat
    // struct s_mini_sprintf.
    const buf: array<char>
    const maxbuf: nat
    var ptr: nat
    // Everything the engine has written.
    ghost var fed: string
    // What was in the buffer at first.
    ghost const initial: string

    ghost predicate Valid()
      reads this, buf
    {
      match mode
      case Uncooked => output == fed && count == |output|
      case Cooked => output == Cook(fed) && count == |output|
      case Buffered =>
        && maxbuf <= buf.Length == |initial| && ptr == (if |fed| < maxbuf then |fed| else maxbuf)
        && buf[..ptr] == fed[..ptr] && buf[ptr..] == initial[ptr..]
    }

    constructor ToUser(cooked: bool)
      ensures Valid() && fed == "" && output == "" && mode == (if cooked then Cooked else Uncooked)
      ensures fresh(buf)
    {
      mode := if cooked then Cooked else Uncooked;
      output, count, fed := "", 0, "";
      buf := new char[0](_ => ' ');
      initial := "";
      maxbuf, ptr := 0, 0;
    }

    constructor ToBuffer(buffer: array<char>, max: nat)
      requires max <= buffer.Length
      ensures Valid() && fed == "" && mode == Buffered && buf == buffer && maxbuf == max && initial == buffer[..]
    {
      mode := Buffered;
      output, count, fed := "", 0, "";
      buf := buffer;
      initial := buffer[..];
      maxbuf, ptr := max, 0;
    }

    /** mini_putc() and mini_sputc(). */
    method Putc(ch: char)
      requires Valid()
      modifies this`output, this`count, this`ptr, this`fed, buf
      ensures Valid() && fed == old(fed) + [ch]
    {
      match mode {
        case Uncooked =>
          output := output + [ch];
          count := count + 1;
        case Cooked =>
          CookSnoc(fed, ch);
          output := output + [ch];
          count := count + 1;
          if ch == '\n' {
            output := output + ['\r'];
            count := count + 1;
          }
          assert output == old(output) + CookOne(ch);
        case Buffered =>
          if ptr < maxbuf {
            buf[ptr] := ch;
            ptr := ptr + 1;
            assert buf[..ptr] == old(buf[..ptr]) + [ch];
            assert buf[ptr..] == old(buf[ptr..])[1..];
          }
      }
      fed := fed + [ch];
    }
  }

  // mini_write().
  method Write(sink: Sink, msg: string)
    requires sink.Valid()
    modifies sink`output, sink`count, sink`ptr, sink`fed, sink.buf
    ensures sink.Valid() && sink.fed == old(sink.fed) + msg
  {
    var i := 0;
    while i < |msg|
      invariant i <= |msg| && sink.Valid() && sink.fed == old(sink.fed) + msg[..i]
    {
      sink.Putc(msg[i]);
      i := i + 1;
      assert msg[..i] == msg[..i - 1] + [msg[i - 1]];
    }
    assert msg[..i] == msg;
  }

  // mini_pad().
  method Pad(sink: Sink, pad: char, width: nat, text: string)
    requires sink.Valid()
    modifies sink`output, sink`count, sink`ptr, sink`fed, sink.buf
    ensures sink.Valid() && sink.fed == old(sink.fed) + Padding(pad, width, text)
  {
    if width > 0 {
      var left: int := width - |text|;
      ghost var n := left;
      while left > 0
        invariant sink.Valid()
        invariant n > 0 ==> 0 <= left <= n && sink.fed == old(sink.fed) + Repeat(pad, n - left)
        invariant n <= 0 ==> left == n && sink.fed == old(sink.fed)
      {
        sink.Putc(pad);
        left := left - 1;
        assert Repeat(pad, n - left) == Repeat(pad, n - left - 1) + [pad];
      }
    }
  }

  lemma {:induction false} DigitsStep(v: nat, hex: bool, lower: bool)
    ensures Digits(v, hex, lower) ==
      (if High(v, hex) == 0 then "" else Digits(High(v, hex), hex, lower)) + [DigitChar(Low(v, hex), lower)]
  {
  }

  /** The do-while loops that fill the buffer from its end. The 40 bytes are always enough. */
  method FormatDigits(value: nat, hex: bool, lower: bool) returns (text: string)
    requires value < WORDS
    ensures text == Digits(value, hex, lower)
  {
    WordDigits(value, hex, lower);
    var buf := new char[40](_ => ' ');
    var bptr := 39;
    buf[bptr] := '\0';
    DigitsStep(value, hex, lower);
    var v := High(value, hex);
    bptr := bptr - 1;
    buf[bptr] := DigitChar(Low(value, hex), lower);
    ghost var done: string := buf[bptr..39];
    while v != 0
      invariant 0 < bptr < 39 && buf[bptr..39] == done
      invariant Digits(value, hex, lower) == (if v == 0 then "" else Digits(v, hex, lower)) + done
      decreases v
    {
      DigitsStep(v, hex, lower);
      bptr := bptr - 1;
      buf[bptr] := DigitChar(Low(v, hex), lower);
      assert buf[bptr + 1..39] == done;
      assert buf[bptr..39] == [buf[bptr]] + buf[bptr + 1..39];
      Associates(if High(v, hex) == 0 then "" else Digits(High(v, hex), hex, lower), [buf[bptr]], done);
      done := [buf[bptr]] + done;
      v := High(v, hex);
    }
    text := buf[bptr..39];
  }

  // mini_pad() and mini_write().
  method WritePadded(sink: Sink, item: Item, text: string)
    requires sink.Valid() && item.Field?
    modifies sink`output, sink`count, sink`ptr, sink`fed, sink.buf
    ensures sink.Valid() && sink.fed == old(sink.fed) + Padded(item, text)
  {
    Pad(sink, item.pad, item.width, text);
    Write(sink, text);
  }

  // %d: the sign goes before the padding.
  method PrintSigned(sink: Sink, item: Item, w: Word, lower: bool)
    requires sink.Valid() && item.Field? && w != WORDS / 2
    modifies sink`output, sink`count, sink`ptr, sink`fed, sink.buf
    ensures sink.Valid()
    ensures var digits := Digits(Abs(Signed(w)), false, lower);
      sink.fed == old(sink.fed) + (SignOf(Signed(w), item.sgn) + Padded(item, digits))
  {
    var vint := Signed(w);
    if vint < 0 {
      sink.Putc('-');
      vint := -vint;
    } else if item.sgn == '+' {
      sink.Putc(item.sgn);
    }
    assert sink.fed == old(sink.fed) + SignOf(Signed(w), item.sgn);
    var text := FormatDigits(vint, false, lower);
    WritePadded(sink, item, text);
    Associates(old(sink.fed), SignOf(Signed(w), item.sgn), Padded(item, text));
  }

  lemma {:induction false} Associates(a: string, b: string, c: string)
    ensures a + (b + c) == (a + b) + c
  {
  }

  // %p, %x and %X: the first two switch to lower case, and %p falls through to the others.
  method PrintHex(sink: Sink, item: Item, w: Word, lower: bool) returns (lower': bool)
    requires sink.Valid() && item.Field? && item.kind in {'p', 'x', 'X'}
    modifies sink`output, sink`count, sink`ptr, sink`fed, sink.buf
    ensures sink.Valid() && lower' == Lower(item, lower)
    ensures var prefix := if item.kind == 'p' then "0x" else "";
      sink.fed == old(sink.fed) + (prefix + Padded(item, Digits(w, true, lower')))
  {
    lower' := lower;
    if item.kind == 'p' {
      Write(sink, "0x");
    }
    if item.kind == 'p' || item.kind == 'x' {
      lower' := true;
    }
    var text := FormatDigits(w, true, lower');
    WritePadded(sink, item, text);
    Associates(old(sink.fed), if item.kind == 'p' then "0x" else "", Padded(item, text));
  }

  // %s: a minus sign puts the padding behind the text.
  method PrintText(sink: Sink, item: Item, text: string)
    requires sink.Valid() && item.Field?
    modifies sink`output, sink`count, sink`ptr, sink`fed, sink.buf
    ensures sink.Valid()
    ensures sink.fed == old(sink.fed) +
      (if item.sgn != '-' then Padded(item, text) else text + Padding(item.pad, item.width, text))
  {
    if item.sgn != '-' {
      Pad(sink, item.pad, item.width, text);
    }
    Write(sink, text);
    if item.sgn == '-' {
      Pad(sink, item.pad, item.width, text);
    }
  }

  // %c, %%, and what is not supported.
  method PrintOther(sink: Sink, item: Item, args: seq<Arg>, k: nat, lower: bool)
    requires sink.Valid() && item.Field? && Suits(item, args, k) && item.kind !in {'u', 'd', 'p', 'x', 'X', 's'}
    modifies sink`output, sink`count, sink`ptr, sink`fed, sink.buf
    ensures sink.Valid() && sink.fed == old(sink.fed) + Rendered(item, args, k, lower)
  {
    if item.kind == 'c' {
      sink.Putc((args[k].w % 256) as char);
    } else if item.kind == '%' {
      sink.Putc(item.kind);
    } else {
      sink.Putc('%');
      sink.Putc('?');
      sink.Putc(item.kind);
    }
  }

  // %u, %d, %p, %x and %X.
  method PrintNumber(sink: Sink, item: Item, args: seq<Arg>, k: nat, lower: bool) returns (lower': bool)
    requires sink.Valid() && item.Field? && Suits(item, args, k) && item.kind in {'u', 'd', 'p', 'x', 'X'}
    modifies sink`output, sink`count, sink`ptr, sink`fed, sink.buf
    ensures sink.Valid() && sink.fed == old(sink.fed) + Rendered(item, args, k, lower) && lower' == Lower(item, lower)
  {
    lower' := lower;
    if item.kind == 'u' {
      var text := FormatDigits(args[k].w, false, lower);
      WritePadded(sink, item, text);
    } else if item.kind == 'd' {
      PrintSigned(sink, item, args[k].w, lower);
    } else {
      RenderedHex(item, args, k, lower);
      lower' := PrintHex(sink, item, args[k].w, lower);
    }
  }

  lemma {:induction false} RenderedHex(item: Item, args: seq<Arg>, k: nat, lower: bool)
    requires item.Field? && item.kind in {'p', 'x', 'X'} && Suits(item, args, k)
    ensures var prefix := if item.kind == 'p' then "0x" else "";
      Rendered(item, args, k, lower) == prefix + Padded(item, Digits(args[k].w, true, Lower(item, lower)))
  {
    if item.kind != 'p' {
      var text := Padded(item, Digits(args[k].w, true, Lower(item, lower)));
      assert "" + text == text;
    }
  }

  // One round of the engine: a character to copy, or the switch for a conversion.
  method PrintItem(sink: Sink, item: Item, args: seq<Arg>, k: nat, lower: bool) returns (lower': bool)
    requires sink.Valid() && Suits(item, args, k)
    modifies sink`output, sink`count, sink`ptr, sink`fed, sink.buf
    ensures sink.Valid() && sink.fed == old(sink.fed) + Rendered(item, args, k, lower) && lower' == Lower(item, lower)
  {
    lower' := lower;
    match item {
      case Literal(c) => sink.Putc(c);
      case Field(kind, _, _, _) =>
        if kind in {'u', 'd', 'p', 'x', 'X'} {
          lower' := PrintNumber(sink, item, args, k, lower);
        } else if kind == 's' {
          PrintText(sink, item, args[k].s);
        } else {
          PrintOther(sink, item, args, k, lower);
        }
    }
  }

  // What the engine reads of a conversion that begins at index `i`: an item and the index after it, or
  // nothing if the format ends before.
  method ReadField(format: string, i: nat) returns (found: bool, item: Item, next: nat)
    requires !ParseField(format, i).RunsOff?
    ensures if found then ParseField(format, i) == Parsed(item, next) else ParseField(format, i).Ended?
  {
    var pad, sgn, width: nat := ' ', '\0', 0;
    next := i;
    if At(format, next) == '+' || At(format, next) == '-' {
      sgn := At(format, next);
      next := next + 1;
    }
    if At(format, next) == '0' {
      pad := '0';
      next := next + 1;
    }
    ghost var k := next;
    while next < |format| && '0' <= format[next] <= '9'
      invariant WidthFrom(format, next, width) == WidthFrom(format, k, 0)
      decreases |format| - next
    {
      width := width * 10 + (format[next] - '0') as nat;
      next := next + 1;
    }
    item := Literal(' ');
    if At(format, next) == '\0' {
      found := false;
    } else {
      if format[next] == 'l' {
        next := next + 1;
      }
      item := Field(format[next], pad, sgn, width);
      next := next + 1;
      found := true;
    }
  }

  /** internal_vprintf(): a format that keeps the engine inside prints what it is to print. */
  method VPrintf(sink: Sink, format: string, args: seq<Arg>)
    requires sink.Valid() && ItemsFrom(format, 0).0 && AllSuit(ItemsFrom(format, 0).1, args, 0)
    modifies sink`output, sink`count, sink`ptr, sink`fed, sink.buf
    ensures sink.Valid()
    ensures sink.fed == Run(Engine(0, false, old(sink.fed)), ItemsFrom(format, 0).1, args).text
  {
    var i: nat, k: nat, lower := 0, 0, false;
    ghost var e, items := Engine(0, false, sink.fed), ItemsFrom(format, 0).1;
    ghost var final := Run(e, items, args);
    while At(format, i) != '\0'
      invariant sink.Valid() && e == Engine(k, lower, sink.fed)
      invariant ItemsFrom(format, i) == (true, items)
      invariant AllSuit(items, args, e.k) && Run(e, items, args) == final
      decreases |format| - i
    {
      var found, item, next := ReadItem(format, i);
      if !found {
        break;
      }
      items := ItemsFrom(format, next).1;
      e := Round(item, items, e, args);
      lower := PrintItem(sink, item, args, k, lower);
      k := k + Consumed(item);
      i := next;
    }
  }

  // The next item of the format, if there is one.
  method ReadItem(format: string, i: nat) returns (found: bool, item: Item, next: nat)
    requires At(format, i) != '\0' && ItemsFrom(format, i).0
    ensures if found
            then next > i && ItemsFrom(format, next).0 && ItemsFrom(format, i).1 == [item] + ItemsFrom(format, next).1
            else ItemsFrom(format, i).1 == []
  {
    if format[i] == '%' {
      found, item, next := ReadField(format, i + 1);
    } else {
      found, item, next := true, Literal(format[i]), i + 1;
    }
  }

  // One round, as the engine's specification has it.
  lemma {:induction false} Round(item: Item, items: seq<Item>, e: Engine, args: seq<Arg>) returns (e': Engine)
    requires AllSuit([item] + items, args, e.k)
    ensures Suits(item, args, e.k) && AllSuit(items, args, e'.k)
    ensures e' == Engine(e.k + Consumed(item), Lower(item, e.lower), e.text + Rendered(item, args, e.k, e.lower))
    ensures Run(e, [item] + items, args) == Run(e', items, args)
  {
    assert ([item] + items)[0] == item && ([item] + items)[1..] == items;
    e' := Engine(e.k + Consumed(item), Lower(item, e.lower), e.text + Rendered(item, args, e.k, e.lower));
  }

  // ---- the three ways in ----

  predicate Printable(format: string, args: seq<Arg>) {
    ItemsFrom(format, 0).0 && AllSuit(ItemsFrom(format, 0).1, args, 0)
  }

  function Printed(format: string, args: seq<Arg>): string
    requires Printable(format, args)
  {
    Render(ItemsFrom(format, 0).1, args)
  }

  /** mini_vprintf_uncooked() and mini_vprintf_cooked(): the user's putc() gets the text, in cooked mode
      with a carriage return behind each line feed, and the result is the number of characters. */
  method VPrintfToUser(cooked: bool, format: string, args: seq<Arg>) returns (count: nat, output: string)
    requires Printable(format, args)
    ensures output == (if cooked then Cook(Printed(format, args)) else Printed(format, args))
    ensures count == |output| == |Printed(format, args)| + if cooked then Feeds(Printed(format, args)) else 0
  {
    var sink := new Sink.ToUser(cooked);
    VPrintf(sink, format, args);
    CookCount(Printed(format, args));
    count, output := sink.count, sink.output;
  }

  /** mini_snprintf(): the buffer gets as much of the text as there is room for, and a terminator only if
      there is room for that as well; the result is the number of characters stored. */
  method SnPrintf(buf: array<char>, maxbuf: nat, format: string, args: seq<Arg>) returns (count: nat)
    requires maxbuf <= buf.Length && Printable(format, args)
    modifies buf
    ensures var text := Printed(format, args);
      && count == (if |text| < maxbuf then |text| else maxbuf)
      && buf[..count] == text[..count]
      && (|text| < maxbuf ==> buf[count] == '\0' && buf[count + 1..] == old(buf[..])[count + 1..])
      && (|text| >= maxbuf ==> buf[count..] == old(buf[..])[count..])
  {
    var sink := new Sink.ToBuffer(buf, maxbuf);
    VPrintf(sink, format, args);
    count := sink.ptr;
    ghost var text := sink.fed;
    sink.Putc('\0');
    forall j | 0 <= j < count
      ensures buf[j] == text[j]
    {
      assert buf[..sink.ptr][j] == sink.fed[j] == text[j];
    }
    assert |text| < maxbuf ==> buf[..sink.ptr][count] == sink.fed[count] == '\0';
  }
}
