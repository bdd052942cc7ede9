/** What formats look like: which ones the engine leaves, and which can be put together. */
module PrintFormats {
  import opened PrintSpec

  // ---- the syntax ----

  predicate Digit(c: char) { '0' <= c <= '9' }

  predicate Sign(c: char) { c == '+' || c == '-' }

  // An optional sign and digits, the first of which may be a zero to fill with.
  predicate Opening(o: string) {
    forall i :: 0 <= i < |o| ==> Digit(o[i]) || (i == 0 && Sign(o[i]))
  }

  // What can follow an opening without being part of it.
  predicate Closing(o: string, c: char) { !Digit(c) && (o == "" ==> !Sign(c)) }

  // A percent sign, an opening, and a letter; there may be an l before the letter.
  predicate Conversion(s: string, o: string) {
    && Opening(o) && "%" + o < s
    && Closing(o, s[1 + |o|])
    && (if s[1 + |o|] == 'l' then |s| == |o| + 3 else |s| == |o| + 2)
  }

  ghost predicate IsConversion(s: string) { exists o :: Conversion(s, o) }

  // Characters that are copied, and whole conversions.
  ghost predicate Complete(f: string)
    decreases |f|
  {
    || f == ""
    || (f[0] != '%' && Complete(f[1..]))
    || exists n :: 0 < n <= |f| && IsConversion(f[..n]) && Complete(f[n..])
  }

  // A conversion is begun behind `h` and does not get to its letter.
  ghost predicate Breaks(f: string, h: string, o: string) { f == h + ("%" + o) && Complete(h) && Opening(o) }

  // Or the format ends right after an l.
  ghost predicate Leaves(f: string, h: string, o: string) { f == h + ("%" + o + "l") && Complete(h) && Opening(o) }

  lemma {:induction false} NoNullIn(f: string, h: string, o: string, l: string)
    requires NoNull(f) && Opening(o) && (l == "" || l == "l") && f == h + ("%" + o + l)
    ensures NoNull(h) && NoNull("%" + o + l)
  {
    assert h == f[..|h|];
  }

  // ---- the engine reads what is left, wherever it begins ----

  lemma {:induction false} WidthShift(p: string, f: string, i: nat, width: nat)
    ensures WidthFrom(p + f, |p| + i, width) == (WidthFrom(f, i, width).0, |p| + WidthFrom(f, i, width).1)
    decreases |f| - i
  {
    if i < |f| && Digit(f[i]) {
      WidthShift(p, f, i + 1, width * 10 + (f[i] - '0') as nat);
    }
  }

  lemma {:induction false} FlagsShift(p: string, f: string, i: nat)
    ensures var r := ParseFlags(f, i); ParseFlags(p + f, |p| + i) == r.(next := |p| + r.next)
  {
    assert forall j: nat :: At(p + f, |p| + j) == At(f, j);
    var j := if Sign(At(f, i)) then i + 1 else i;
    WidthShift(p, f, if At(f, j) == '0' then j + 1 else j, 0);
  }

  lemma {:induction false} FieldShift(p: string, f: string, i: nat)
    ensures ParseField(p + f, |p| + i) ==
      match ParseField(f, i) case Parsed(item, next) => Parsed(item, |p| + next) case other => other
  {
    FlagsShift(p, f, i);
    assert forall j: nat :: At(p + f, |p| + j) == At(f, j);
  }

  lemma {:induction false} ItemsShift(p: string, f: string, i: nat)
    ensures ItemsFrom(p + f, |p| + i) == ItemsFrom(f, i)
    decreases |f| - i
  {
    if i < |f| && f[i] != '\0' {
      if f[i] != '%' {
        ItemsShift(p, f, i + 1);
      } else {
        FieldShift(p, f, i + 1);
        if ParseField(f, i + 1).Parsed? {
          ItemsShift(p, f, ParseField(f, i + 1).next);
        }
      }
    }
  }

  // The items of a format are those of its first piece and of the rest.
  function Items(f: string): (bool, seq<Item>) { ItemsFrom(f, 0) }

  lemma {:induction false} ItemsLiteral(f: string)
    requires f != "" && f[0] != '%' && f[0] != '\0'
    ensures Items(f) == (Items(f[1..]).0, [Literal(f[0])] + Items(f[1..]).1)
  {
    ItemsShift(f[..1], f[1..], 0);
    assert f == f[..1] + f[1..];
  }

  lemma {:induction false} ItemsField(f: string)
    requires f != "" && f[0] == '%' && ParseField(f, 1).Parsed?
    ensures var p := ParseField(f, 1); Items(f) == (Items(f[p.next..]).0, [p.item] + Items(f[p.next..]).1)
  {
    var n := ParseField(f, 1).next;
    ItemsShift(f[..n], f[n..], 0);
    assert f == f[..n] + f[n..];
  }

  // ---- openings ----

  lemma {:induction false} WidthReads(f: string, i: nat, m: nat, width: nat)
    requires i <= m <= |f| && (forall j :: i <= j < m ==> Digit(f[j])) && !Digit(At(f, m))
    ensures WidthFrom(f, i, width).1 == m
    decreases m - i
  {
    if i < m {
      WidthReads(f, i + 1, m, width * 10 + (f[i] - '0') as nat);
    }
  }

  lemma {:induction false} WidthStops(f: string, i: nat, width: nat)
    requires i <= |f|
    ensures var m := WidthFrom(f, i, width).1; !Digit(At(f, m)) && forall j :: i <= j < m ==> Digit(f[j])
    decreases |f| - i
  {
    if i < |f| && Digit(f[i]) {
      WidthStops(f, i + 1, width * 10 + (f[i] - '0') as nat);
    }
  }

  // The engine reads an opening to its end,
  lemma {:induction false} FlagsRead(f: string, o: string)
    requires |f| > |o| && f[1..1 + |o|] == o && Opening(o) && Closing(o, At(f, 1 + |o|))
    ensures ParseFlags(f, 1).next == 1 + |o|
  {
    assert forall j :: 0 <= j < |o| ==> f[1 + j] == o[j];
    var m := 1 + |o|;
    var j := if Sign(At(f, 1)) then 2 else 1;
    WidthReads(f, if At(f, j) == '0' then j + 1 else j, m, 0);
  }

  // and what it reads is an opening.
  lemma {:induction false} FlagsAreOpening(f: string)
    requires f != ""
    ensures var m := ParseFlags(f, 1).next;
      1 <= m <= |f| && Opening(f[1..m]) && Closing(f[1..m], At(f, m))
  {
    var j := if Sign(At(f, 1)) then 2 else 1;
    WidthStops(f, if At(f, j) == '0' then j + 1 else j, 0);
  }

  // ---- complete formats ----

  lemma {:induction false} ConversionRead(f: string, s: string, o: string)
    requires s <= f && NoNull(f) && Conversion(s, o)
    ensures f[0] == '%' && ParseFlags(f, 1).next == 1 + |o| && ParseField(f, 1).Parsed?
    ensures ParseField(f, 1).next == |s|
  {
    assert s[..1 + |o|] == "%" + o;
    assert f[..1 + |o|] == "%" + o;
    assert f[1..1 + |o|] == f[..1 + |o|][1..];
    FlagsRead(f, o);
    assert f[1 + |o|] == s[1 + |o|];
  }

  lemma {:induction false} ConversionParsed(f: string, g: string, n: nat)
    requires n <= |f| && NoNull(f) && NoNull(g) && IsConversion(f[..n])
    ensures f[0] == '%' && ParseField(f, 1).Parsed? && ParseField(f, 1).next == n
    ensures ParseField(f + g, 1) == ParseField(f, 1)
  {
    var s := f[..n];
    var o :| Conversion(s, o);
    assert s <= f + g;
    ConversionRead(f, s, o);
    ConversionRead(f + g, s, o);
    FlagsAlike(f, g, 1);
    assert forall i: nat :: i < |f| ==> At(f + g, i) == At(f, i);
  }

  // What follows does not matter as long as the flags end before it.
  lemma {:induction false} FlagsAlike(f: string, g: string, i: nat)
    requires ParseFlags(f, i).next < |f|
    ensures ParseFlags(f + g, i) == ParseFlags(f, i)
  {
    assert forall i: nat :: i < |f| ==> At(f + g, i) == At(f, i);
    var j := if Sign(At(f, i)) then i + 1 else i;
    WidthAlike(f, g, if At(f, j) == '0' then j + 1 else j, 0);
  }

  lemma {:induction false} WidthAlike(f: string, g: string, i: nat, width: nat)
    requires WidthFrom(f, i, width).1 < |f|
    ensures WidthFrom(f + g, i, width) == WidthFrom(f, i, width)
    decreases |f| - i
  {
    if i < |f| && Digit(f[i]) {
      WidthAlike(f, g, i + 1, width * 10 + (f[i] - '0') as nat);
    }
  }

  // Both the front and the whole begin with the same item.
  lemma {:induction false} FirstItem(f: string, g: string) returns (n: nat, item: Item)
    requires Complete(f) && f != "" && NoNull(f) && NoNull(g)
    ensures 0 < n <= |f| && Complete(f[n..])
    ensures Items(f) == (Items(f[n..]).0, [item] + Items(f[n..]).1)
    ensures Items(f + g) == (Items(f[n..] + g).0, [item] + Items(f[n..] + g).1)
  {
    if f[0] != '%' && Complete(f[1..]) {
      n, item := 1, Literal(f[0]);
      ItemsLiteral(f);
      ItemsLiteral(f + g);
      assert (f + g)[1..] == f[1..] + g;
    } else {
      n :| 0 < n <= |f| && IsConversion(f[..n]) && Complete(f[n..]);
      item := FirstField(f, g, n);
    }
  }

  lemma {:induction false} FirstField(f: string, g: string, n: nat) returns (item: Item)
    requires n <= |f| && IsConversion(f[..n]) && NoNull(f) && NoNull(g)
    ensures Items(f) == (Items(f[n..]).0, [item] + Items(f[n..]).1)
    ensures Items(f + g) == (Items(f[n..] + g).0, [item] + Items(f[n..] + g).1)
  {
    ConversionParsed(f, g, n);
    item := ParseField(f, 1).item;
    ItemsField(f);
    ItemsField(f + g);
    assert (f + g)[n..] == f[n..] + g;
  }

  /** A format can be put in front of another one if it is complete: the items of both follow. */
  lemma {:induction false} CompleteReads(f: string, g: string)
    requires Complete(f) && NoNull(f) && NoNull(g)
    ensures Items(f).0 && Items(f + g) == (Items(g).0, Items(f).1 + Items(g).1)
    decreases |f|
  {
    if f == "" {
      assert f + g == g && [] + Items(g).1 == Items(g).1;
    } else {
      var n, item := FirstItem(f, g);
      CompleteReads(f[n..], g);
      Joined([item], Items(f[n..]).1, Items(g).1);
    }
  }

  lemma {:induction false} Joined(a: seq<Item>, b: seq<Item>, c: seq<Item>)
    ensures a + (b + c) == (a + b) + c
  {
  }

  // What the engine makes of a conversion that is begun: nothing; or it goes on behind the end.
  lemma {:induction false} OpeningEnds(o: string)
    requires Opening(o)
    ensures Items("%" + o) == (true, []) && Items("%" + o + "l") == (false, [])
  {
    assert ("%" + o)[1..1 + |o|] == o && ("%" + o + "l")[1..1 + |o|] == o;
    FlagsRead("%" + o, o);
    FlagsRead("%" + o + "l", o);
  }

  // A letter behind it is not copied any more.
  lemma {:induction false} OpeningTakes(o: string, l: string)
    requires Opening(o) && (l == "" || l == "l")
    ensures Items("%" + o + l + "d").1 != [Literal('d')]
  {
    var f := "%" + o + l + "d";
    assert f[1..1 + |o|] == o;
    FlagsRead(f, o);
    assert ParseField(f, 1).Parsed?;
    ItemsField(f);
    assert Items(f).1[0].Field?;
  }

  /** A format is complete, or breaks off in a conversion, or leaves after an l. */
  lemma {:induction false} FormatKinds(f: string) returns (h: string, o: string)
    requires NoNull(f)
    ensures Complete(f) || Breaks(f, h, o) || Leaves(f, h, o)
    decreases |f|
  {
    h, o := "", "";
    if f == "" {
    } else if f[0] != '%' {
      h, o := FormatKinds(f[1..]);
      h := Extended(f, 1, h, o);
    } else {
      var m := ParseFlags(f, 1).next;
      FlagsAreOpening(f);
      var p := ParseField(f, 1);
      if p.Parsed? {
        assert Conversion(f[..p.next], f[1..m]);
        h, o := FormatKinds(f[p.next..]);
        h := Extended(f, p.next, h, o);
      } else {
        o := f[1..m];
        assert f == "" + ("%" + o) || f == "" + ("%" + o + "l");
      }
    }
  }

  // What is said about the rest of a format holds of all of it.
  lemma {:induction false} Extended(f: string, n: nat, h: string, o: string) returns (h': string)
    requires 0 < n <= |f| && (IsConversion(f[..n]) || (n == 1 && f[0] != '%'))
    requires Complete(f[n..]) || Breaks(f[n..], h, o) || Leaves(f[n..], h, o)
    ensures Complete(f) || Breaks(f, h', o) || Leaves(f, h', o)
  {
    h' := f[..n] + h;
    assert f == f[..n] + f[n..];
    if Complete(f[n..]) {
      PieceFirst(f[..n], f[n..]);
    } else {
      PieceFirst(f[..n], h);
    }
  }

  lemma {:induction false} PieceFirst(piece: string, rest: string)
    requires piece != "" && (IsConversion(piece) || (|piece| == 1 && piece[0] != '%')) && Complete(rest)
    ensures Complete(piece + rest)
  {
    var f, n := piece + rest, |piece|;
    assert f[..n] == piece && f[n..] == rest;
  }

  // ---- the results ----

  ghost predicate EndsAfterL(f: string) { exists h, o :: Leaves(f, h, o) }

  /** The engine leaves a format at its end exactly if the last conversion is a percent sign, a sign
      perhaps, digits perhaps, and an l. */
  lemma {:induction false} StaysInside(f: string)
    requires NoNull(f)
    ensures !Items(f).0 <==> EndsAfterL(f)
  {
    if EndsAfterL(f) {
      var h, o :| Leaves(f, h, o);
      NoNullIn(f, h, o, "l");
      CompleteReads(h, "%" + o + "l");
      OpeningEnds(o);
    } else {
      var h, o := FormatKinds(f);
      if Complete(f) {
        CompleteReads(f, "");
      } else {
        assert "%" + o + "" == "%" + o;
        NoNullIn(f, h, o, "");
        CompleteReads(h, "%" + o);
        OpeningEnds(o);
      }
    }
  }

  /** So a format of a percent sign and an l is left, and one that just ends in an l is not. */
  lemma {:induction false} PercentL()
    ensures !Items("%l").0 && Items("hell").0
  {
    OpeningEnds("");
    assert "%" + "" + "l" == "%l";
    assert Complete("hell"[4..]) && Complete("hell"[3..]) && Complete("hell"[2..]) && Complete("hell"[1..]);
    CompleteReads("hell", "");
  }

  /** Exactly the complete formats can be put in front of any other, with the items of both following
      one another. The others swallow the beginning of what comes next. */
  lemma {:induction false} FormatsConcat(f: string)
    requires NoNull(f)
    ensures Complete(f) <==> forall g :: NoNull(g) ==> Items(f + g).1 == Items(f).1 + Items(g).1
  {
    if Complete(f) {
      forall g | NoNull(g)
        ensures Items(f + g).1 == Items(f).1 + Items(g).1
      {
        CompleteReads(f, g);
      }
    } else {
      Swallows(f);
    }
  }

  lemma {:induction false} Swallows(f: string)
    requires NoNull(f) && !Complete(f)
    ensures Items(f + "d").1 != Items(f).1 + Items("d").1
  {
    var h, o := FormatKinds(f);
    var l := if Breaks(f, h, o) then "" else "l";
    assert "%" + o + "" == "%" + o;
    assert f == h + ("%" + o + l);
    NoNullIn(f, h, o, l);
    CompleteReads(h, "%" + o + l);
    assert f + "d" == h + ("%" + o + l + "d");
    CompleteReads(h, "%" + o + l + "d");
    OpeningEnds(o);
    OpeningTakes(o, l);
    ItemsLiteral("d");
    var (front, rest) := (Items(h).1, Items("%" + o + l + "d").1);
    assert Items("d").1 == [Literal('d')] && Items(f).1 == front + [] == front;
    assert (front + rest)[|front|..] == rest && (front + [Literal('d')])[|front|..] == [Literal('d')];
  }

  /** Printing one format after another is printing them in one, if the first is complete. All that is
      carried over, besides the text, is the place in the arguments and the case of hexadecimal digits:
      an X in the second prints in capitals exactly if there is no x and no p in the first. */
  lemma {:induction false} RunConcat(e: Engine, f: string, g: string, args: seq<Arg>)
    requires Complete(f) && NoNull(f) && NoNull(g) && Items(g).0
    requires AllSuit(Items(f).1, args, e.k) && AllSuit(Items(g).1, args, Run(e, Items(f).1, args).k)
    ensures Items(f + g).0 && AllSuit(Items(f + g).1, args, e.k)
    ensures Run(e, Items(f + g).1, args) == Run(Run(e, Items(f).1, args), Items(g).1, args)
    ensures Run(e, Items(f).1, args).lower <==> e.lower || AnyLower(Items(f).1)
  {
    CompleteReads(f, g);
    AfterRun(e, Items(f).1, args);
    RunAppend(e, Items(f).1, Items(g).1, args);
  }
}
