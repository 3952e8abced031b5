/** A CharStream: a target chosen once at construction, a separator and a
    terminator, and the fixed format buffer that every call overwrites with the
    format it synthesizes. The rendering engine (CHAR_STREAM_SPRINTF) and the
    operating system's write are outside the model: a call ends by describing
    the one rendering request it makes, as a `Request` value. */
module Streams {
  import opened CStrings
  import opened TypeDispatch
  import opened FormatSynthesis

  /** CHAR_STREAM_BUFFER_SIZE and CHAR_STREAM_FORMAT_BUFFER_SIZE, at their defaults. */
  const BufferSize: nat := 512
  const FormatBufferSize: nat := 128

  /** A size_t-wide word. */
  type Word = x: int | 0 <= x < 0x1_0000_0000_0000_0000

  /** The standard descriptors (fixed at 0, 1 and 2 in the build without
      system headers, and the POSIX STDIN/STDOUT/STDERR_FILENO values). */
  const Stdin: Word := 0
  const Stdout: Word := 1
  const Stderr: Word := 2

  /** The Target union: one word that is either a descriptor or the address of
      a caller-owned character buffer. */
  datatype Target = Target(value: Word)

  /** The constructor's test: a target is a standard stream exactly when its
      word equals one of the three descriptors. */
  function IsStdTarget(t: Target): (r: bool)
    ensures r <==> t.value < 3
  {
    t.value == Stdin || t.value == Stderr || t.value == Stdout
  }

  /** Where rendered characters go: written to a descriptor (after rendering
      into the stream's own buffer), or rendered straight into caller memory. */
  datatype Sink = Descriptor(fd: Word) | Memory(addr: Word)

  function SinkOf(t: Target): (s: Sink)
    ensures s.Descriptor? == IsStdTarget(t)
    ensures (if s.Descriptor? then s.fd else s.addr) == t.value
  {
    if IsStdTarget(t) then Descriptor(t.value) else Memory(t.value)
  }

  /** The single rendering request a call makes: the sink, the format string
      and the coerced arguments. */
  datatype Request = Request(sink: Sink, format: string, args: seq<Value>)

  class CharStream {
    const target: Target
    const targetIsStd: bool
    const sep: Text
    const trm: Text
    const buff: array<char>
    const formatBuff: array<char>

    ghost predicate Valid() {
      buff.Length == BufferSize && formatBuff.Length == FormatBufferSize &&
      buff != formatBuff &&
      targetIsStd == IsStdTarget(target)
    }

    constructor (target: Target, sep: Text, trm: Text)
      ensures Valid()
      ensures this.target == target && this.sep == sep && this.trm == trm
      ensures targetIsStd <==> target.value in {Stdin, Stdout, Stderr}
      ensures fresh(buff) && fresh(formatBuff)
    {
      this.target := target;
      this.targetIsStd := IsStdTarget(target);
      this.sep := sep;
      this.trm := trm;
      buff := new char[BufferSize];
      formatBuff := new char[FormatBufferSize];
    }

    /** The defaults: standard output, " " between values, "\n" at the end. */
    constructor Default()
      ensures Valid()
      ensures target == Target(Stdout) && targetIsStd
      ensures sep == " " && trm == "\n"
      ensures fresh(buff) && fresh(formatBuff)
    {
      target := Target(Stdout);
      targetIsStd := true;
      sep := " ";
      trm := "\n";
      buff := new char[BufferSize];
      formatBuff := new char[FormatBufferSize];
    }

    /** writeFormatItem: appends '%', the value's conversion and the
      separator, the terminator or nothing, from the cursor on; the last copy
      also stores a NUL just past the item. Both by-reference counters come back
      advanced. */
    method WriteFormatItem(sep: Text, trm: Text, fbuffIndex: Index, paramIndex: Index,
                           paramCount: Index, v: Value)
      returns (fbuffIndex': Index, paramIndex': Index)
      requires Valid()
      requires fbuffIndex + |Item(v, paramIndex, paramCount, sep, trm)| + 1 <= formatBuff.Length
      requires paramIndex < IndexMax
      modifies formatBuff
      ensures fbuffIndex' == fbuffIndex + |Item(v, paramIndex, paramCount, sep, trm)|
      ensures paramIndex' == paramIndex + 1
      ensures formatBuff[..] == Overwrite(old(formatBuff[..]), fbuffIndex, Item(v, paramIndex, paramCount, sep, trm) + [NUL])
    {
      var spec := Spec(v);
      var sepOrTrm: Text :=
        if paramIndex < paramCount - 1 then sep
        else if paramIndex == paramCount - 1 then trm
        else "";
      assert Item(v, paramIndex, paramCount, sep, trm) == "%" + spec + sepOrTrm;
      fbuffIndex' := StoreItem(fbuffIndex, spec, sepOrTrm);
      paramIndex' := paramIndex + 1;
    }

    /** The three copies of writeFormatItem from cursor `c`: "%" with `max` 1,
      so without its NUL, then the conversion and the trailer, each with its
      NUL, the second over the first's NUL. Returns the advanced cursor. */
    method StoreItem(c: Index, spec: Text, trailer: Text) returns (c': Index)
      requires Valid()
      requires |spec| < IndexMax && |trailer| < IndexMax
      requires c + 1 + |spec| + |trailer| + 1 <= formatBuff.Length
      modifies formatBuff
      ensures c' == c + 1 + |spec| + |trailer|
      ensures formatBuff[..] == Overwrite(old(formatBuff[..]), c, "%" + spec + trailer + [NUL])
    {
      ghost var before := formatBuff[..];
      ItemCopies(spec, trailer);
      var n := Scpy(formatBuff, c, "%" + [NUL], 1);
      ghost var s1 := formatBuff[..];
      c' := c + n;
      n := Scpy(formatBuff, c', spec + [NUL], IndexMax);
      ghost var s2 := formatBuff[..];
      c' := c' + n;
      n := Scpy(formatBuff, c', trailer + [NUL], IndexMax);
      c' := c' + n;
      ItemStores(before, s1, s2, formatBuff[..], c, spec, trailer);
    }

    /** writeFormat: synthesizes the format for `vals` from the start of the
      format buffer and leaves it NUL-terminated right after the last item.
      With no values nothing is written. Returns where the cursor stopped. The
      caller must make the format and its terminator fit the buffer. */
    method WriteFormat(sep: Text, trm: Text, paramCount: Index, vals: seq<Value>)
      returns (cursor: Index)
      requires Valid()
      requires |Format(vals, paramCount, sep, trm)| + 1 <= formatBuff.Length
      modifies formatBuff
      ensures cursor == |Format(vals, paramCount, sep, trm)|
      ensures formatBuff[..] == if |vals| == 0 then old(formatBuff[..])
                                else Overwrite(old(formatBuff[..]), 0, Format(vals, paramCount, sep, trm) + [NUL])
    {
      ghost var o := formatBuff[..];
      cursor := 0;
      var paramIndex: Index := 0;
      var i := 0;
      while i < |vals|
        invariant i <= |vals| && paramIndex == i
        invariant cursor == |Format(vals[..i], paramCount, sep, trm)| < |o|
        invariant formatBuff[..] == Stored(o, vals[..i], paramCount, sep, trm)
      {
        ghost var current := formatBuff[..];
        ItemFits(vals, i, paramCount, sep, trm, |o|);
        cursor, paramIndex := WriteFormatItem(sep, trm, cursor, paramIndex, paramCount, vals[i]);
        FormatStored(o, current, formatBuff[..], vals, i, paramCount, sep, trm);
        i := i + 1;
      }
      assert vals[..i] == vals;
    }

    /** targetSprintf: renders into the stream's own buffer and writes that to
      the descriptor when the target is a standard stream, and renders straight
      into the target's memory otherwise; every argument is coerced first. */
    method TargetSprintf(fmt: string, params: seq<Value>) returns (r: Request)
      requires Valid()
      ensures r.sink == (if target.value in {Stdin, Stdout, Stderr} then Descriptor(target.value) else Memory(target.value))
      ensures r.format == fmt
      ensures r.args == CoerceAll(params)
    {
      if targetIsStd {
        r := Request(Descriptor(target.value), fmt, CoerceAll(params));
      } else {
        r := Request(Memory(target.value), fmt, CoerceAll(params));
      }
    }

    /** operator(): with no values, renders the terminator through "%s";
      otherwise synthesizes the format with every value declared and renders
      the values through it. */
    method Call(vals: seq<Value>) returns (r: Request)
      requires Valid()
      requires |Format(vals, |vals|, sep, trm)| + 1 <= FormatBufferSize
      modifies formatBuff
      ensures r.sink == SinkOf(target)
      ensures |vals| == 0 ==> r.format == "%s" && r.args == [Str(trm)]
      ensures |vals| == 0 ==> formatBuff[..] == old(formatBuff[..])
      ensures |r.format| < FormatBufferSize
      ensures |vals| > 0 ==> r.format == Join(Conversions(vals), sep) + trm && r.args == CoerceAll(vals)
      ensures |vals| > 0 ==> formatBuff[..] == Overwrite(old(formatBuff[..]), 0, r.format + [NUL])
      ensures NoPercent(sep) && NoPercent(trm) ==> PercentCount(r.format) == |r.args|
    {
      if |vals| == 0 {
        r := TargetSprintf("%s", [Str(trm)]);
        assert r.args == [Str(trm)];
        assert multiset(r.format) == multiset{'%', 's'};
      } else {
        var paramCount: Index := |vals| % 0x100;
        assert paramCount == |vals|;
        ghost var f := Format(vals, |vals|, sep, trm);
        var cursor := WriteFormat(sep, trm, paramCount, vals);
        OverwriteFront(old(formatBuff[..]), f + [NUL]);
        var fmt := ReadFormatBuffer(f);
        r := TargetSprintf(fmt, vals);
        FormatOfCall(vals, sep, trm);
        if NoPercent(sep) && NoPercent(trm) {
          CallPercents(vals, sep, trm);
        }
      }
    }

    /** write(sep, ...): declares one value fewer than it is given and an
      empty terminator, so the last value is rendered bare after the others,
      which are joined by `sep`. With no values the declared count wraps to 255,
      nothing is stored, and the engine is handed whatever C string the format
      buffer still holds from an earlier call. */
    method Write(sep: Text, vals: seq<Value>) returns (r: Request)
      requires Valid()
      requires |vals| == 0 ==> NUL in formatBuff[..]
      requires |vals| >= 1 ==> |Format(vals, |vals| - 1, sep, "")| + 1 <= FormatBufferSize
      modifies formatBuff
      ensures r.sink == SinkOf(target)
      ensures r.args == CoerceAll(vals)
      ensures |r.format| < FormatBufferSize
      ensures |vals| == 0 ==> formatBuff[..] == old(formatBuff[..])
      ensures |vals| == 0 ==> r.format == old(formatBuff[..])[..NulIndex(old(formatBuff[..]))]
      ensures |vals| >= 1 ==> r.format == Join(Conversions(vals[..|vals| - 1]), sep) + Conversion(vals[|vals| - 1])
      ensures |vals| >= 1 ==> formatBuff[..] == Overwrite(old(formatBuff[..]), 0, r.format + [NUL])
      ensures |vals| >= 1 && NoPercent(sep) ==> PercentCount(r.format) == |r.args|
    {
      var paramCount: Index := (|vals| - 1) % 0x100;
      if |vals| == 0 {
        assert paramCount == 255;
        var cursor := WriteFormat(sep, "", paramCount, vals);
        var fmt := ReadCString(formatBuff);
        NulIndexOfPrefix(formatBuff[..], fmt);
        r := TargetSprintf(fmt, vals);
      } else {
        assert paramCount == |vals| - 1;
        ghost var f := Format(vals, |vals| - 1, sep, "");
        var cursor := WriteFormat(sep, "", paramCount, vals);
        OverwriteFront(old(formatBuff[..]), f + [NUL]);
        var fmt := ReadFormatBuffer(f);
        r := TargetSprintf(fmt, vals);
        FormatOfWrite(vals, sep);
        if NoPercent(sep) {
          WritePercents(vals, sep);
        }
      }
    }

    /** The format string the rendering engine reads from the format buffer
      once `f` and its terminator have been stored at its start. */
    method ReadFormatBuffer(ghost f: Text) returns (fmt: string)
      requires Valid()
      requires |f| < formatBuff.Length && formatBuff[..|f| + 1] == f + [NUL]
      ensures fmt == f
    {
      assert formatBuff[|f|] == (f + [NUL])[|f|];
      NulIndexOfPrefix(formatBuff[..], f);
      fmt := ReadCString(formatBuff);
      assert formatBuff[..][..|fmt| + 1] == fmt + [NUL];
      NulIndexOfPrefix(formatBuff[..], fmt);
      assert fmt == formatBuff[..|f|] == f;
    }
  }

  /** The three copies writeFormatItem makes: "%" with `max` 1, then the
      conversion and the trailer as whole C strings. */
  lemma ItemCopies(spec: Text, trailer: Text)
    requires |spec| < IndexMax && |trailer| < IndexMax
    ensures CopyCount("%" + [NUL], 1) == 1 && WriteCount("%" + [NUL], 1) == 1
    ensures CopyCount(spec + [NUL], IndexMax) == |spec| && WriteCount(spec + [NUL], IndexMax) == |spec| + 1
    ensures CopyCount(trailer + [NUL], IndexMax) == |trailer| && WriteCount(trailer + [NUL], IndexMax) == |trailer| + 1
    ensures ("%" + [NUL])[..1] == "%"
    ensures (spec + [NUL])[..|spec| + 1] == spec + [NUL]
    ensures (trailer + [NUL])[..|trailer| + 1] == trailer + [NUL]
  {
    PercentCopy();
    ScpyWholeString(spec, IndexMax);
    ScpyWholeString(trailer, IndexMax);
  }

  /** Chaining the three stores of writeFormatItem: '%' alone, the conversion
      with its NUL, then the trailer with its NUL over that NUL. */
  lemma ItemStores(before: seq<char>, s1: seq<char>, s2: seq<char>, s3: seq<char>, c: nat, spec: Text, trailer: Text)
    requires |spec| < IndexMax && |trailer| < IndexMax
    requires c + 1 + |spec| + |trailer| + 1 <= |before|
    requires s1 == Overwrite(before, c, "%")
    requires s2 == Overwrite(s1, c + 1, spec + [NUL])
    requires s3 == Overwrite(s2, c + 1 + |spec|, trailer + [NUL])
    ensures s3 == Overwrite(before, c, "%" + spec + trailer + [NUL])
  {
    OverwriteAgain(before, c, "%", 1, spec + [NUL]);
    assert "%" + (spec + [NUL]) == "%" + spec + [NUL];
    OverwriteAgain(before, c, "%" + spec + [NUL], 1 + |spec|, trailer + [NUL]);
    assert ("%" + spec + [NUL])[..1 + |spec|] + (trailer + [NUL]) == "%" + spec + trailer + [NUL];
  }

  /** The next item and its NUL fit after the format built so far, and the
      parameter index stays below 255, when the whole format and its NUL fit. */
  lemma ItemFits(vals: seq<Value>, i: nat, paramCount: int, sep: Text, trm: Text, capacity: nat)
    requires i < |vals|
    requires |Format(vals, paramCount, sep, trm)| + 1 <= capacity <= FormatBufferSize
    ensures |Format(vals[..i], paramCount, sep, trm)| + |Item(vals[i], i, paramCount, sep, trm)| + 1 <= capacity
    ensures i < IndexMax
  {
    FormatStep(vals, i, paramCount, sep, trm);
    FormatPrefix(vals, i + 1, paramCount, sep, trm);
  }

  /** The format buffer once writeFormat has walked `vals`: untouched when
      there were none, and the format and a NUL from the start otherwise. */
  function Stored(o: seq<char>, vals: seq<Value>, paramCount: int, sep: Text, trm: Text): seq<char>
    requires |Format(vals, paramCount, sep, trm)| + 1 <= |o|
  {
    if |vals| == 0 then o else Overwrite(o, 0, Format(vals, paramCount, sep, trm) + [NUL])
  }

  /** One turn of writeFormat's walk: storing item `i` after the format of
      the first `i` values stores the format of the first `i + 1`. */
  lemma FormatStored(o: seq<char>, current: seq<char>, next: seq<char>,
                     vals: seq<Value>, i: nat, paramCount: int, sep: Text, trm: Text)
    requires i < |vals|
    requires |Format(vals[..i], paramCount, sep, trm)| + |Item(vals[i], i, paramCount, sep, trm)| + 1 <= |o|
    requires current == Stored(o, vals[..i], paramCount, sep, trm)
    requires next == Overwrite(current, |Format(vals[..i], paramCount, sep, trm)|, Item(vals[i], i, paramCount, sep, trm) + [NUL])
    ensures |Format(vals[..i + 1], paramCount, sep, trm)|
         == |Format(vals[..i], paramCount, sep, trm)| + |Item(vals[i], i, paramCount, sep, trm)|
    ensures next == Stored(o, vals[..i + 1], paramCount, sep, trm)
  {
    FormatStep(vals, i, paramCount, sep, trm);
    if i == 0 {
      assert vals[..0] == [];
    }
    StoreNext(o, current, next, Format(vals[..i], paramCount, sep, trm), Item(vals[i], i, paramCount, sep, trm), i == 0);
  }

  /** Storing the next item (and its NUL) at the end of the format built so
      far extends that format; before the first item nothing was stored. */
  lemma StoreNext(o: seq<char>, current: seq<char>, next: seq<char>, prefix: Text, item: Text, first: bool)
    requires |prefix| + |item| + 1 <= |o|
    requires first ==> prefix == [] && current == o
    requires !first ==> current == Overwrite(o, 0, prefix + [NUL])
    requires next == Overwrite(current, |prefix|, item + [NUL])
    ensures next == Overwrite(o, 0, prefix + item + [NUL])
  {
    if first {
      assert prefix + item + [NUL] == item + [NUL];
    } else {
      OverwriteAgain(o, 0, prefix + [NUL], |prefix|, item + [NUL]);
      assert (prefix + [NUL])[..|prefix|] + (item + [NUL]) == prefix + item + [NUL];
    }
  }

  /** scpy(p, "%", 1) stores the '%' alone, no terminator, and counts 1. */
  lemma PercentCopy()
    ensures CopyCount("%" + [NUL], 1) == 1 && WriteCount("%" + [NUL], 1) == 1
    ensures ("%" + [NUL])[..1] == "%"
  {
    ScpyWholeString("%", 2);
    ScpyTruncates("%" + [NUL], 1);
  }

  /** Stored at the start, `w` is the buffer's first |w| characters. */
  lemma OverwriteFront(d: seq<char>, w: seq<char>)
    requires |w| <= |d|
    ensures Overwrite(d, 0, w)[..|w|] == w
  {
  }

  /** Storing `w2` over a buffer that already holds `w1` at `off`, starting
      `k` characters into `w1` and reaching at least its end, leaves the first
      `k` characters of `w1` followed by `w2`. */
  lemma OverwriteAgain(d: seq<char>, off: nat, w1: seq<char>, k: nat, w2: seq<char>)
    requires k <= |w1| <= k + |w2|
    requires off + k + |w2| <= |d|
    ensures Overwrite(Overwrite(d, off, w1), off + k, w2) == Overwrite(d, off, w1[..k] + w2)
  {
    var a := Overwrite(Overwrite(d, off, w1), off + k, w2);
    var b := Overwrite(d, off, w1[..k] + w2);
    OverwriteAt(d, off, w1);
    OverwriteAt(Overwrite(d, off, w1), off + k, w2);
    OverwriteAt(d, off, w1[..k] + w2);
    assert |a| == |b|;
    forall j | 0 <= j < |a|
      ensures a[j] == b[j]
    {
    }
  }
}
