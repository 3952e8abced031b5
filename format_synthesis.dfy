/** The format string writeFormat synthesizes, as a function of the argument
    list, the declared parameter count, the separator and the terminator; and
    the shape that string has for the two ways the stream calls it. */
module FormatSynthesis {
  import opened CStrings
  import opened TypeDispatch

  /** The text written after item `i` when `paramCount` parameters are
      declared. The comparison is on C's promoted `int`s, so a declared count of
      0 gives -1 and every item then gets nothing. */
  function Trailer(i: int, paramCount: int, sep: Text, trm: Text): Text {
    if i < paramCount - 1 then sep
    else if i == paramCount - 1 then trm
    else ""
  }

  /** The `%` and conversion written for one value. */
  function Conversion(v: Value): Text {
    "%" + Spec(v)
  }

  /** Everything writeFormatItem appends for item `i`: it starts with '%' and
      takes at least two characters. */
  function Item(v: Value, i: int, paramCount: int, sep: Text, trm: Text): (r: Text)
    ensures |r| >= 2 && r[0] == '%'
  {
    Conversion(v) + Trailer(i, paramCount, sep, trm)
  }

  /** The format built for `vals`, item by item from the left, as the cursor
      walks the buffer. Every item takes at least two characters. */
  function Format(vals: seq<Value>, paramCount: int, sep: Text, trm: Text): (r: Text)
    ensures |r| >= 2 * |vals|
  {
    if |vals| == 0 then ""
    else Format(vals[..|vals| - 1], paramCount, sep, trm) + Item(vals[|vals| - 1], |vals| - 1, paramCount, sep, trm)
  }

  /** One conversion per value, in order. */
  function Conversions(vals: seq<Value>): (r: seq<Text>)
    ensures |r| == |vals|
    ensures forall i :: 0 <= i < |vals| ==> r[i] == Conversion(vals[i])
  {
    seq(|vals|, i requires 0 <= i < |vals| => Conversion(vals[i]))
  }

  /** Reference definition: `parts` with `sep` between consecutive ones. */
  function Join(parts: seq<string>, sep: string): string {
    if |parts| == 0 then ""
    else if |parts| == 1 then parts[0]
    else parts[0] + sep + Join(parts[1..], sep)
  }

  lemma {:induction false} JoinSnoc(parts: seq<string>, p: string, sep: string)
    requires |parts| >= 1
    ensures Join(parts + [p], sep) == Join(parts, sep) + sep + p
  {
    if |parts| == 1 {
      assert (parts + [p])[1..] == [p];
    } else {
      assert (parts + [p])[1..] == parts[1..] + [p];
      JoinSnoc(parts[1..], p, sep);
    }
  }

  /** The terminator goes to exactly one item, the last declared one, and
      every item past the declared count gets nothing; with a count of 0 no
      item gets the terminator. */
  lemma TrailerChoice(i: nat, paramCount: int, sep: Text, trm: Text)
    requires trm != sep && trm != ""
    ensures Trailer(i, paramCount, sep, trm) == trm <==> i == paramCount - 1
  {
  }

  /** Whatever the separator and terminator (the empty terminator of write()
      included), an item at or past the declared count gets nothing, so with a
      count of 0 no item gets anything. */
  lemma TrailerPastCount(i: nat, paramCount: int, sep: Text, trm: Text)
    ensures i >= paramCount ==> Trailer(i, paramCount, sep, trm) == ""
    ensures paramCount <= 0 ==> Trailer(i, paramCount, sep, trm) == ""
  {
  }

  /** The conversion list and the argument list line up: up to signedness,
      the i-th conversion reads the kind of argument the i-th coerced value is
      passed as. */
  lemma ConversionsMatchArgs(vals: seq<Value>)
    ensures forall i :: 0 <= i < |vals| ==>
              Expects(Conversions(vals)[i][1..]) == Some(AsSigned(Promoted(CoerceAll(vals)[i])))
  {
    forall i | 0 <= i < |vals|
      ensures Expects(Conversions(vals)[i][1..]) == Some(AsSigned(Promoted(CoerceAll(vals)[i])))
    {
      SpecMatchesCoerced(vals[i]);
      assert Conversions(vals)[i][1..] == Spec(vals[i]);
    }
  }

  /** How many '%' characters a format holds: each one starts a conversion
      the rendering engine acts on. */
  function PercentCount(s: string): nat {
    multiset(s)['%']
  }

  predicate NoPercent(s: string) {
    '%' !in s
  }

  /** With a '%'-free separator and terminator, an item holds exactly one '%'. */
  lemma ItemPercents(v: Value, i: int, paramCount: int, sep: Text, trm: Text)
    requires NoPercent(sep) && NoPercent(trm)
    ensures PercentCount(Item(v, i, paramCount, sep, trm)) == 1
  {
    var t := Trailer(i, paramCount, sep, trm);
    assert '%' !in Spec(v) && '%' !in t;
    assert multiset(Item(v, i, paramCount, sep, trm)) == multiset("%") + multiset(Spec(v)) + multiset(t) by {
      assert Item(v, i, paramCount, sep, trm) == "%" + Spec(v) + t;
    }
  }

  /** With a '%'-free separator and terminator, the format holds exactly one
      '%' per value: one conversion for every argument handed to the engine. */
  lemma {:induction false} FormatPercents(vals: seq<Value>, paramCount: int, sep: Text, trm: Text)
    requires NoPercent(sep) && NoPercent(trm)
    ensures PercentCount(Format(vals, paramCount, sep, trm)) == |vals|
  {
    if |vals| > 0 {
      var init := vals[..|vals| - 1];
      var item := Item(vals[|vals| - 1], |vals| - 1, paramCount, sep, trm);
      FormatPercents(init, paramCount, sep, trm);
      ItemPercents(vals[|vals| - 1], |vals| - 1, paramCount, sep, trm);
      assert multiset(Format(vals, paramCount, sep, trm)) == multiset(Format(init, paramCount, sep, trm)) + multiset(item);
    }
  }

  /** Appending one more value appends exactly its item. */
  lemma FormatStep(vals: seq<Value>, i: nat, paramCount: int, sep: Text, trm: Text)
    requires i < |vals|
    ensures Format(vals[..i + 1], paramCount, sep, trm)
         == Format(vals[..i], paramCount, sep, trm) + Item(vals[i], i, paramCount, sep, trm)
  {
    assert vals[..i + 1][..i] == vals[..i];
  }

  /** The format of a prefix of the arguments is a prefix of the format. */
  lemma {:induction false} FormatPrefix(vals: seq<Value>, i: nat, paramCount: int, sep: Text, trm: Text)
    requires i <= |vals|
    ensures Format(vals[..i], paramCount, sep, trm) <= Format(vals, paramCount, sep, trm)
    ensures |Format(vals[..i], paramCount, sep, trm)| <= |Format(vals, paramCount, sep, trm)|
    decreases |vals| - i
  {
    if i < |vals| {
      FormatStep(vals, i, paramCount, sep, trm);
      FormatPrefix(vals, i + 1, paramCount, sep, trm);
    } else {
      assert vals[..i] == vals;
    }
  }

  lemma ConversionsSnoc(vals: seq<Value>)
    requires |vals| >= 1
    ensures Conversions(vals) == Conversions(vals[..|vals| - 1]) + [Conversion(vals[|vals| - 1])]
  {
  }

  /** While every item lies before the last declared parameter, each one is
      followed by the separator. */
  lemma {:induction false} FormatBeforeLast(vals: seq<Value>, paramCount: int, sep: Text, trm: Text)
    requires 1 <= |vals| < paramCount
    ensures Format(vals, paramCount, sep, trm) == Join(Conversions(vals), sep) + sep
  {
    var n := |vals|;
    var init := vals[..n - 1];
    assert Format(vals, paramCount, sep, trm) == Format(init, paramCount, sep, trm) + (Conversion(vals[n - 1]) + sep);
    if n == 1 {
      assert Conversions(vals) == [Conversion(vals[0])];
    } else {
      FormatBeforeLast(init, paramCount, sep, trm);
      ConversionsSnoc(vals);
      JoinSnoc(Conversions(init), Conversion(vals[n - 1]), sep);
    }
  }

  /** operator() declares all n values: the format is the n conversions with
      the separator in the n-1 gaps, then the terminator once. */
  lemma {:induction false} FormatOfCall(vals: seq<Value>, sep: Text, trm: Text)
    requires |vals| >= 1
    ensures Format(vals, |vals|, sep, trm) == Join(Conversions(vals), sep) + trm
  {
    var n := |vals|;
    var init := vals[..n - 1];
    if n == 1 {
      assert Conversions(vals) == [Conversion(vals[0])];
    } else {
      FormatBeforeLast(init, n, sep, trm);
      ConversionsSnoc(vals);
      JoinSnoc(Conversions(init), Conversion(vals[n - 1]), sep);
    }
  }

  /** write() declares n-1 of its n values and an empty terminator: the first
      n-1 conversions are joined by the separator, and the last value's
      conversion follows with nothing around it. */
  lemma {:induction false} FormatOfWrite(vals: seq<Value>, sep: Text)
    requires |vals| >= 1
    ensures Format(vals, |vals| - 1, sep, "") == Join(Conversions(vals[..|vals| - 1]), sep) + Conversion(vals[|vals| - 1])
  {
    var n := |vals|;
    var init := vals[..n - 1];
    if n > 1 {
      FormatOfCall(init, sep, "");
    }
  }

  /** The format operator() renders through holds one '%' per value when
      neither the separator nor the terminator holds one. */
  lemma CallPercents(vals: seq<Value>, sep: Text, trm: Text)
    requires |vals| >= 1 && NoPercent(sep) && NoPercent(trm)
    ensures PercentCount(Join(Conversions(vals), sep) + trm) == |vals|
  {
    FormatOfCall(vals, sep, trm);
    FormatPercents(vals, |vals|, sep, trm);
  }

  /** The format write() renders through holds one '%' per value when the
      separator holds none. */
  lemma WritePercents(vals: seq<Value>, sep: Text)
    requires |vals| >= 1 && NoPercent(sep)
    ensures PercentCount(Join(Conversions(vals[..|vals| - 1]), sep) + Conversion(vals[|vals| - 1])) == |vals|
  {
    FormatOfWrite(vals, sep);
    FormatPercents(vals, |vals| - 1, sep, "");
  }

  lemma JoinThree(a: string, b: string, c: string, sep: string)
    ensures Join([a, b, c], sep) == a + sep + b + sep + c
  {
    assert [a, b, c][1..] == [b, c];
    assert [b, c][1..] == [c];
    assert Join([b, c], sep) == b + sep + c;
    assert Join([a, b, c], sep) == a + sep + (b + sep + c);
  }

  /** Three 32-bit integers with " " and "\n", as in `(1, 2, 3)`, give
      "%d %d %d\n". */
  lemma CallExample(a: int32, b: int32, c: int32)
    ensures Format([Int32(a), Int32(b), Int32(c)], 3, " ", "\n") == "%d %d %d\n"
  {
    var vals := [Int32(a), Int32(b), Int32(c)];
    FormatOfCall(vals, " ", "\n");
    assert Conversions(vals) == ["%d", "%d", "%d"] by {
      assert Conversion(Int32(a)) == "%d" && Conversion(Int32(b)) == "%d" && Conversion(Int32(c)) == "%d";
    }
    JoinThree("%d", "%d", "%d", " ");
  }

  /** write("___", 1, 2, 3, "\n") gives "%d___%d___%d%s": the trailing
      string is one more value, rendered bare, not a terminator. */
  lemma WriteExample(a: int32, b: int32, c: int32, t: Text)
    ensures Format([Int32(a), Int32(b), Int32(c), Str(t)], 3, "___", "") == "%d___%d___%d%s"
  {
    var init := [Int32(a), Int32(b), Int32(c)];
    var vals := init + [Str(t)];
    assert Format(init, 3, "___", "") == "%d___%d___%d" by {
      FormatOfCall(init, "___", "");
      assert Conversions(init) == ["%d", "%d", "%d"] by {
        assert Conversion(Int32(a)) == "%d" && Conversion(Int32(b)) == "%d" && Conversion(Int32(c)) == "%d";
      }
      JoinThree("%d", "%d", "%d", "___");
    }
    assert Format(vals, 3, "___", "") == Format(init, 3, "___", "") + "%s" by {
      assert vals[..3] == init;
      assert Item(Str(t), 3, 3, "___", "") == "%s";
    }
    assert vals == [Int32(a), Int32(b), Int32(c), Str(t)];
  }
}
