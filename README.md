# CharStream in Dafny

A model of the logic in `CharStream.h`, a header-only C++ printf front end.
A `CharStream` holds a target chosen once, a separator and a terminator. It
prints the values it is called with, without a format string. For each call
it synthesizes a printf format in a fixed-size buffer (128 characters by default), one `%`
conversion per value, with the separator or terminator between them. It then
hands that format and the values, coerced to what the conversions expect, to
one rendering call. The rendering goes to a standard descriptor or into a
caller-owned character buffer.

The project has five modules:

- `CStrings` (`cstrings.dfy`) covers C strings as NUL-terminated character arrays.
  - `Scpy` is the bounded copy `scpy`, proved against `Overwrite`, which says what is
    stored and that nothing else changes.
  - `ReadCString` is what the rendering engine reads from a format pointer.
- `TypeDispatch` (`type_dispatch.dfy`) is the `EXPECTED_TYPE` table.
  - The overload set becomes the closed datatype `Value`.
  - `Spec` (`charForType`) and `Coerce` (`coerceToExpectedParam`) become total functions.
  - The lemmas check the table against C's default argument promotions. Up to
    signedness, each conversion reads the kind of argument its coerced value is passed as.
    The match is exact except for `uint32_t`, `unsigned long` and `uint64_t`, which are
    read by the signed "%d" and "%ld".
  - A C `char` is a byte: `Value.Char` holds only characters below 256.
- `FormatSynthesis` (`format_synthesis.dfy`) is the format string as a function.
  - `Format` gives the string as a function of the values, the declared parameter count,
    the separator and the terminator.
  - `Join` is an independent reference definition. The lemmas relate `Format` to it for the
    two ways the stream uses it, `operator()` and `write()`.
- `Streams` (`char_stream.dfy`) is the `CharStream` class.
  - The format buffer is an `array<char>` that `WriteFormatItem` and `WriteFormat` change
    in place.
  - `Call` and `Write` each return the single rendering request they make, as a `Request`
    value: the sink, the format string and the coerced arguments.
- `CharLoops` (`char_loop.dfy`) is `CharLoop<ST, N>`, the slice allocator.
  - It has a cursor field and a character array that `Claim` updates.
  - The lemmas show what the `CHAR_STREAM_OPERATOR` macro relies on. With a buffer of
    `COUNT` slots of `SIZE`, claims take the slots in turn, so any `COUNT` consecutive
    results are disjoint.

Three integer rules are written out explicitly:

- The format cursor and the parameter counters are `uint8_t`, so they have the subset type
  `Index` (0..255).
- `write()` passes `sizeof...(params) - 1` converted to `uint8_t`, so the model passes
  `(n - 1) % 256`. With no values this is 255.
- `writeFormatItem` compares against `paramCount - 1` after C's promotion to `int`. A
  declared count of 0 therefore gives -1 and no wrap-around. `Trailer` takes `int`s for
  that reason.

Unsigned integers get the signed conversions: `uint8_t` to `uint32_t` use "d" and
`unsigned long`/`uint64_t` use "ld" (`CharStream.h:70-71`, `CharStream.h:170-176`). For
`uint8_t` and `uint16_t` this is exact, since they are promoted to `int`. A `uint32_t` of
2^31 or more is read by "%d" as a negative `int`: `TypeDispatch.UnsignedReadAsSigned`
shows that 3000000000 reads as -1294967296.

The functions `TypeDispatch.CoerceAll`, `FormatSynthesis.Conversions` and `Streams.SinkOf`
are the vocabulary the contracts of `Call`, `Write` and `TargetSprintf` are written in: the
coerced argument list, the list of `%` conversions, and where a target's output goes. Their
properties are stated by `FormatSynthesis.ConversionsMatchArgs`, `FormatSynthesis.FormatOfCall`,
`FormatSynthesis.FormatOfWrite`, `FormatSynthesis.FormatPercents` and `Streams.IsStdTarget`.

## Model

| member | source | states |
|---|---|---|
| CStrings.NulIndex | CharStream.h:210-212 | the first NUL lies at the result, and there is no NUL before it; the result is the length when the sequence has no NUL |
| CStrings.Scpy | CharStream.h:204-215 | returns min(strlen(src), max); stores exactly the first min(strlen(src)+1, max) characters of `src` from the offset; every other character of `dst` is unchanged |
| CStrings.ScpyCounts | CharStream.h:209-214 | the count never exceeds `max`; scpy stores a terminator (one character more than it counts) if and only if it meets the NUL before reaching `max` |
| CStrings.ScpyWholeString | CharStream.h:209-214 | copying a string shorter than `max` stores the text and its NUL and returns the text's length |
| CStrings.ScpyTruncates | CharStream.h:209-214 | when `max` is at most the text's length, exactly `max` text characters are stored and counted, with no terminator |
| CStrings.NulIndexOfPrefix | CharStream.h:104 | a buffer that begins with a text and a NUL holds that text as a C string |
| CStrings.ReadCString | CharStream.h:104 | the format the engine reads is the buffer's characters before its first NUL |
| TypeDispatch.Spec | CharStream.h:162-184 | charForType: the conversion is one or two characters with no NUL, so it can be copied as a C string, and with no '%', so it adds no conversion of its own |
| TypeDispatch.SpecIsOneOfFive | CharStream.h:65-73 | only the five conversions "f", "s", "c", "d" and "ld" are ever chosen |
| TypeDispatch.Coerce | CharStream.h:162-184 | coerceToExpectedParam: no boolean reaches the engine, and the coerced value has the same conversion as the original |
| TypeDispatch.SpecMatchesCoerced | CharStream.h:162-184 | up to signedness, the conversion chosen for every supported type reads the argument kind (int, long, double or pointer) its coerced value is passed as after C's promotions; the match is exact if and only if the type is not uint32_t, unsigned long or uint64_t |
| TypeDispatch.UnsignedReadAsSigned | CharStream.h:170-176 | a uint32_t of 2^31 or more is written with "%d", which reads it as a negative int; 3000000000 reads as -1294967296 |
| TypeDispatch.CoerceKeepsAllButBool | CharStream.h:162-184 | bool becomes the string "true" exactly when it is true and "false" otherwise; every other value passes through unchanged; coercing twice changes nothing more |
| TypeDispatch.StringConversionIffString | CharStream.h:162-184 | a value is written with "%s" if and only if a string is passed for it, which happens exactly for bool and char const * |
| FormatSynthesis.Format | CharStream.h:123-160 | every value contributes at least two characters, '%' and its conversion |
| FormatSynthesis.Item | CharStream.h:145-157 | what one writeFormatItem call appends starts with '%' and takes at least two characters; FormatStep states that the call appends exactly it |
| FormatSynthesis.TrailerChoice | CharStream.h:151-154 | for a non-empty terminator different from the separator, an item gets the terminator if and only if it is the one at paramCount-1 |
| FormatSynthesis.TrailerPastCount | CharStream.h:151-154 | for any separator and terminator, write()'s empty one included, an item at or past paramCount gets nothing, and with a count of 0 or less no item gets anything |
| FormatSynthesis.ConversionsMatchArgs | CharStream.h:101-105 | the conversion list and the argument list line up: up to signedness, the i-th conversion reads the kind of argument the i-th coerced value is passed as |
| FormatSynthesis.ItemPercents | CharStream.h:145-157 | with a '%'-free separator and terminator, one writeFormatItem call appends exactly one '%' |
| FormatSynthesis.FormatPercents | CharStream.h:123-160 | with a '%'-free separator and terminator, the synthesized format holds exactly one '%' per value, whatever the declared count |
| FormatSynthesis.CallPercents | CharStream.h:101-105 | the format operator() renders through holds exactly one '%' per argument when neither separator nor terminator holds a '%' |
| FormatSynthesis.WritePercents | CharStream.h:114-118 | the format write() renders through holds exactly one '%' per argument when the separator holds no '%' |
| FormatSynthesis.JoinSnoc | CharStream.h:151-152 | joining one more part appends the separator and that part |
| FormatSynthesis.FormatStep | CharStream.h:132-157 | the format of one more value is the format so far followed by that value's item |
| FormatSynthesis.FormatPrefix | CharStream.h:130-132 | the format of a prefix of the values is a prefix of the whole format, so no longer than it |
| FormatSynthesis.FormatBeforeLast | CharStream.h:151-152 | while every index is below paramCount-1, the items are the conversions joined by the separator, plus one trailing separator |
| FormatSynthesis.FormatOfCall | CharStream.h:101-160 | with paramCount = n, the format is the n conversions joined by the separator, followed once by the terminator |
| FormatSynthesis.FormatOfWrite | CharStream.h:116-160 | with paramCount = n-1 and an empty terminator, the first n-1 conversions are joined by the separator and the last conversion follows with nothing around it |
| FormatSynthesis.CallExample | CharStream.h:101-104 | three 32-bit integers with " " and "\n" give "%d %d %d\n" |
| FormatSynthesis.WriteExample | test/test.cpp:52-54 | write("___", 1, 2, 3, "\n") synthesizes "%d___%d___%d%s" |
| Streams.IsStdTarget | CharStream.h:83-93 | a target is a standard stream if and only if its word is 0, 1 or 2 |
| Streams.CharStream.constructor | CharStream.h:91-95 | keeps the target, separator and terminator; `targetIsStd` holds exactly when the target equals stdin, stdout or stderr |
| Streams.CharStream.Default | CharStream.h:91 | the default arguments: stdout, " " and "\n" |
| Streams.CharStream.StoreItem | CharStream.h:145-157 | the three scpy calls ('%' with max 1, then the conversion and the trailer as C strings) store '%', the conversion, the trailer and one NUL from the cursor, change nothing else, and advance the cursor past the trailer |
| Streams.CharStream.WriteFormatItem | CharStream.h:135-160 | stores '%', the conversion, and the separator, terminator or nothing (chosen by index against paramCount-1), then a NUL right after them; the cursor advances by the item's length and the parameter index by one; nothing else in the buffer changes |
| Streams.CharStream.WriteFormat | CharStream.h:123-133 | the cursor ends at the synthesized format's length; the buffer holds that format and a NUL from position 0 on, and is unchanged beyond them or when there are no values |
| Streams.CharStream.TargetSprintf | CharStream.h:186-199 | one rendering request with the given format and the coerced arguments, to the descriptor when the target is standard and into the target's memory otherwise |
| Streams.CharStream.Call | CharStream.h:98-105 | with no values, renders the terminator through "%s" and leaves the buffer alone; otherwise renders the coerced values through the conversions joined by the separator plus the terminator, which is left NUL-terminated at the buffer's start; when neither separator nor terminator holds a '%', the format has exactly one '%' per argument |
| Streams.CharStream.Write | CharStream.h:114-118 | renders the first n-1 conversions joined by the separator, then the last one bare, with every value coerced; with no values nothing is stored and the stale C string in the buffer is the format; with values and a '%'-free separator, the format has exactly one '%' per argument |
| Streams.CharStream.ReadFormatBuffer | CharStream.h:117 | the engine reads back exactly the format that was stored with its NUL |
| Streams.ItemStores | CharStream.h:145-157 | the three copies ('%' without NUL, then the conversion and the trailer, each with its NUL and the second over the first's NUL) store the item followed by one NUL |
| Streams.PercentCopy | CharStream.h:145 | scpy(p, "%", 1) stores only '%' and returns 1 |
| Streams.FormatStored | CharStream.h:132 | storing item i after the format of the first i values leaves the format of the first i+1 values, NUL-terminated |
| CharLoops.CharLoop.constructor | CharStream.h:256-257 | a fresh loop has N characters, all NUL, and its cursor at 0 |
| CharLoops.ClaimStart | CharStream.h:249 | a slice no longer than the buffer always fits from where the claim starts, and the claim starts at the cursor if and only if the slice fits there or the cursor is at 0 |
| CharLoops.CharLoop.Claim | CharStream.h:248-254 | the slice restarts at 0 exactly when it would run past N and starts at the cursor otherwise; it lies inside the buffer; its last character becomes NUL and no other character changes; the cursor moves to the slice's end |
| CharLoops.NextAfterOnSlot | CharStream.h:248-262 | in a loop of COUNT slots of SIZE claimed SIZE at a time, the cursor always sits on a slot boundary |
| CharLoops.ClaimsRotate | CharStream.h:261-262 | claim number k starts at slot k mod COUNT |
| CharLoops.ClaimsDisjoint | CharStream.h:260-265 | any two of COUNT consecutive claims are disjoint slices |

## Left out

- The rendering engine `CHAR_STREAM_SPRINTF` (sprintf or stb_sprintf) is an external
  library. A call returns the `Request` it would hand the engine, not the `int` the engine
  returns. The contents the engine writes into the stream's own 512-character buffer or the
  target's memory are not modelled.
- The descriptor write `CHAR_STREAM_SYSWRITE` is operating-system I/O, and its result is
  ignored. A `Descriptor` sink stands for "rendered into the own buffer, then written to
  that descriptor".
- Because rendering is not modelled, no lemma states that `write("___", 1, 2, 3, "\n")` and
  `CharStream{stdout, "___", "\n"}(1, 2, 3)` print the same characters.
  `FormatSynthesis.WriteExample` and `FormatSynthesis.FormatOfCall` give the two formats,
  "%d___%d___%d%s" with argument "\n" and "%d___%d___%d\n".
- `format(fmt, ...)` has no logic of its own. It hands a caller's format to the engine,
  which `TargetSprintf` already models.
- The `CHAR_STREAM_OPERATOR` macro is covered only in part.
  - Its function-local `static CharLoop` and its rendering call are left out.
  - `Str::ptr` and the conversions of `Str` to `char *` are pointer arithmetic on the
    claimed index.
  - Only `Claim` and the lemmas about consecutive claims are modelled.
- `CharLoops.CharLoop.Claim`: the cursor type `ST` is taken as unbounded. The macro uses
  `uint16_t` with `SIZE * COUNT` as `N`, and `next + size <= N` keeps the cursor in range
  there.
- C++ variadic templates, perfect forwarding and overload resolution become a `seq<Value>`.
  A value of an unsupported type, which the compiler rejects, cannot be built.
- The platform `#ifdef` branches are left out.
  - The model uses the branch with `CHAR_STREAM_SYSWRITE` defined. With it undefined, a
    standard target renders nothing.
  - `CHAR_STREAM_DISABLE_LONG` is left out.
  - `unsigned long` and `long` are taken as 64 bits wide.
- FormatSynthesis.ConversionsMatchArgs lines up the conversion list, not the format string.
  The separator and terminator are copied into the format as they are
  (`CharStream.h:151-157`), so a '%' in them starts a conversion of its own. With
  separator "%", `Call([Int32(1), Int32(2)])` renders through "%d%%d\n": the engine reads
  "%d", then "%%", then plain text, and never reads the second argument. The model proves
  one '%' per argument only for '%'-free separators and terminators
  (`FormatSynthesis.FormatPercents`); what the engine makes of other formats is not
  modelled.
- Streams.CharStream.WriteFormat, Streams.CharStream.Call and Streams.CharStream.Write
  require the synthesized format and its NUL to fit the 128-character format buffer. The
  source does not check this. An overflow runs past the buffer, and the `uint8_t` cursor
  would wrap past 255. Both are undefined behaviour and are not modelled.
- Streams.CharStream.WriteFormatItem requires `paramIndex < 255`. This follows from the
  fit above, because every item takes at least two characters.
- Streams.CharStream.Write with no values requires the format buffer to hold a NUL. A
  `CharStream` with automatic or dynamic storage whose buffer was never written holds
  indeterminate characters, and reading them as a C string is undefined. A stream with
  static storage has a zero-filled buffer and renders "" there.
- The model does not check that the stale format of a `write` with no values has no
  conversions. After `Call([Int32(1), Bool(true)])`, a following `Write("___", [])`
  hands the engine "%d %s\n" with no arguments, which is undefined behaviour in C.
- A class with an implicit `operator char const *`, such as `IntPair` in
  `test/test.cpp:13-17`, is modelled as the `Value.Str` of its converted text. The source
  converts such a value twice per call, once in `charForType` (`CharStream.h:146`) and
  once in `coerceToExpectedParam` (`CharStream.h:191`, `CharStream.h:196`). With the
  `CHAR_STREAM_OPERATOR` macro each such value therefore uses up two `CharLoop` slices.
  The model does not capture the second conversion or the second slice.
- `CHAR_STREAM_BUFFER_SIZE`, `CHAR_STREAM_FORMAT_BUFFER_SIZE` and
  `CHAR_STREAM_FORMAT_INDEX_TYPE` are configurable macros (`CharStream.h:17-27`). The
  model fixes them at their defaults: 512, 128 and `uint8_t`. `test/test.cpp:6-7`, for
  instance, builds with 128 and 64.
- `Streams.CharStream.constructor` copies the separator and terminator texts. The
  source keeps only the `char const *` pointers (`CharStream.h:94-95`,
  `CharStream.h:221-222`), so a later change to the caller's text changes later output.
  Aliasing of those texts is not modelled.
- Separators, terminators and `Value.Str` texts are sequences of Dafny `char`s, and every
  length counts characters. The model reads each character as one byte, but it does not
  rule out characters above 255 in these texts.
- The demo programs `main.cpp`, `test.cpp` and `test/test.cpp` are not modelled. One line
  of `test/test.cpp` appears only as the example `FormatSynthesis.WriteExample`.
