/** C strings as the stream sees them: character arrays terminated by NUL, the
    bounded copy `scpy` that fills the format buffer, and reading a C string
    back out of a buffer (what the rendering engine does with a format pointer). */
module CStrings {

  const NUL: char := '\0'

  /** CHAR_STREAM_FORMAT_INDEX_TYPE, an unsigned 8-bit cursor. */
  type Index = x: int | 0 <= x < 0x100

  /** The default `max` of `scpy`: (uint8_t)-1. */
  const IndexMax: Index := 0xFF

  /** A C string's text: characters up to, not including, the terminator. */
  type Text = s: string | NUL !in s

  /** Position of the first NUL in `s`, or |s| when there is none. */
  function NulIndex(s: seq<char>): (k: nat)
    ensures k <= |s|
    ensures forall j :: 0 <= j < k ==> s[j] != NUL
    ensures k < |s| ==> s[k] == NUL
  {
    if |s| == 0 then 0
    else if s[0] == NUL then 0
    else 1 + NulIndex(s[1..])
  }

  function Min(a: int, b: int): int { if a <= b then a else b }

  /** What `scpy(dst, src, max)` returns: the characters it copied before the
      terminator, never more than `max`. */
  function CopyCount(src: seq<char>, max: nat): nat {
    Min(NulIndex(src), max)
  }

  /** How many characters `scpy(dst, src, max)` stores into `dst`: the copied
      ones plus the terminator, unless `max` was reached first. */
  function WriteCount(src: seq<char>, max: nat): nat {
    Min(NulIndex(src) + 1, max)
  }

  /** `d` with `w` stored from position `off` on; every other position kept. */
  function Overwrite(d: seq<char>, off: nat, w: seq<char>): (r: seq<char>)
    requires off + |w| <= |d|
    ensures |r| == |d|
  {
    d[..off] + w + d[off + |w|..]
  }

  /** Position by position: `w` inside its window, `d` everywhere else. */
  lemma OverwriteAt(d: seq<char>, off: nat, w: seq<char>)
    requires off + |w| <= |d|
    ensures forall j :: 0 <= j < |d| ==>
              Overwrite(d, off, w)[j] == (if off <= j < off + |w| then w[j - off] else d[j])
  {
  }

  /** scpy: copies `src` into `dst` from `off` on, up to and including the
      first NUL, but at most `max` characters; returns the number of non-NUL
      characters copied. The caller must make every character read and every
      position written exist. */
  method Scpy(dst: array<char>, off: nat, src: seq<char>, max: Index) returns (n: Index)
    requires WriteCount(src, max) <= |src|
    requires off + WriteCount(src, max) <= dst.Length
    modifies dst
    ensures n == CopyCount(src, max)
    ensures dst[..] == Overwrite(old(dst[..]), off, src[..WriteCount(src, max)])
  {
    var i: Index := 0;
    while i < max
      invariant i <= max && i <= NulIndex(src)
      invariant forall j :: 0 <= j < dst.Length ==>
                  dst[j] == (if off <= j < off + i then src[j - off] else old(dst[j]))
    {
      dst[off + i] := src[i];
      if dst[off + i] == NUL {
        break;
      }
      i := i + 1;
    }
    n := i;
    OverwriteAt(old(dst[..]), off, src[..WriteCount(src, max)]);
    assert dst[..] == Overwrite(old(dst[..]), off, src[..WriteCount(src, max)]);
  }

  /** The C string a pointer to the start of `a` denotes: the characters before
      the first NUL. */
  method ReadCString(a: array<char>) returns (s: seq<char>)
    requires NUL in a[..]
    ensures NUL !in s
    ensures |s| < a.Length && a[|s|] == NUL
    ensures s == a[..|s|]
  {
    var i := 0;
    while a[i] != NUL
      invariant 0 <= i < a.Length
      invariant NUL !in a[..i]
      invariant NUL in a[i..]
      decreases a.Length - i
    {
      assert a[i..] == [a[i]] + a[i + 1..];
      assert a[..i + 1] == a[..i] + [a[i]];
      i := i + 1;
    }
    s := a[..i];
  }

  /** scpy stops at the terminator: its count is at most `max`, and it stores
      exactly one more character than it counts if and only if it met the NUL
      before reaching `max`. */
  lemma ScpyCounts(src: seq<char>, max: nat)
    ensures CopyCount(src, max) <= max
    ensures CopyCount(src, max) <= WriteCount(src, max) <= CopyCount(src, max) + 1
    ensures WriteCount(src, max) == CopyCount(src, max) + 1 <==> NulIndex(src) < max
  {
  }

  /** A buffer that starts with the text `t` and a NUL holds the C string `t`. */
  lemma NulIndexOfPrefix(s: seq<char>, t: Text)
    requires |t| < |s| && s[..|t| + 1] == t + [NUL]
    ensures NulIndex(s) == |t|
  {
    assert s[|t|] == (t + [NUL])[|t|];
    assert forall j :: 0 <= j < |t| ==> s[j] == s[..|t| + 1][j];
  }

  /** Copying a whole C string that fits: the text and its terminator are
      stored and the text's length is returned. */
  lemma {:induction false} ScpyWholeString(t: Text, max: nat)
    requires |t| < max
    ensures NulIndex(t + [NUL]) == |t|
    ensures CopyCount(t + [NUL], max) == |t|
    ensures WriteCount(t + [NUL], max) == |t| + 1
    ensures (t + [NUL])[..WriteCount(t + [NUL], max)] == t + [NUL]
  {
    NulIndexOfPrefix(t + [NUL], t);
  }

  /** Copying with `max` at or below the text's length: exactly `max`
      characters of text are stored and counted, and no terminator is written. */
  lemma {:induction false} ScpyTruncates(src: seq<char>, max: nat)
    requires max <= NulIndex(src)
    ensures CopyCount(src, max) == max && WriteCount(src, max) == max
    ensures max <= |src| && NUL !in src[..max]
  {
    forall j | 0 <= j < max
      ensures src[..max][j] != NUL
    {
    }
  }
}
