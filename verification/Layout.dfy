/**
 What a format string means: which strings are formats, and what number each field stands for, in memory
 and on the wire.
 */
module Layouts {
  import opened Bytes
  import opened Formats
  import opened Encoding

  // ---------- one field ----------

  /** On the wire, a field is the big-endian form of the number that memory holds in little-endian form. */
  predicate IsFieldOnWire(f: Field, memory: seq<Byte>, wire: seq<Byte>) {
    |memory| == |wire| == FieldSize(f) &&
    match f
    case Literal(value) => wire == [value]
    case UidField => IsUidOnWire(memory, wire)
    case _ => BigEndian(wire) == LittleEndian(memory)
  }

  /** A UID is two numbers, each in its own byte order. */
  predicate IsUidOnWire(memory: seq<Byte>, wire: seq<Byte>) {
    && |memory| == |wire| == 6
    && BigEndian(wire[..2]) == LittleEndian(memory[..2]) && BigEndian(wire[2..]) == LittleEndian(memory[2..])
  }

  lemma {:induction false} ReversedBytes(s: seq<Byte>)
    ensures |s| == 1 ==> Reversed(s) == s
    ensures |s| == 2 ==> Reversed(s) == [s[1], s[0]]
    ensures |s| == 4 ==> Reversed(s) == [s[3], s[2], s[1], s[0]]
  {
    if |s| == 4 {
      assert Reversed(s) == Reversed(s[1..][1..][1..]) + [s[1..][1..][0]] + [s[1..][0]] + [s[0]];
      assert Reversed(s[1..][1..][1..]) == [s[3]];
    } else if |s| == 2 {
      assert Reversed(s[1..]) == [s[1]];
    }
  }

  lemma {:induction false} UidOnWire(s: seq<Byte>)
    requires |s| == 6
    ensures IsUidOnWire(s, SwapUid(s))
  {
    ReversedBytes(s[..2]);
    ReversedBytes(s[2..]);
    ReversedIsBigEndian(s[..2]);
    ReversedIsBigEndian(s[2..]);
    assert SwapUid(s)[..2] == Reversed(s[..2]) && SwapUid(s)[2..] == Reversed(s[2..]);
  }

  /** Words and dwords change their byte order, and so do the two parts of a UID. */
  lemma {:induction false} FieldOnWire(f: Field, s: seq<Byte>)
    requires |s| == FieldSize(f)
    ensures IsFieldOnWire(f, s, SwapField(f, s))
  {
    if f.UidField? {
      UidOnWire(s);
    } else {
      ReversedBytes(s);
      ReversedIsBigEndian(s);
    }
  }

  // ---------- the fields of a pass ----------

  function Count(f: Format): nat {
    if f.Then? then 1 + Count(f.rest) else 0
  }

  function NthField(f: Format, k: nat): Field
    requires k < Count(f)
  {
    if k == 0 then f.field else NthField(f.rest, k - 1)
  }

  /** Where a field begins: the sizes of the fields before it. */
  function Offset(f: Format, k: nat): nat
    requires k < Count(f)
  {
    if k == 0 then 0 else FieldSize(f.field) + Offset(f.rest, k - 1)
  }

  /** Is the field in place, when the data begin at `at` in memory and on the wire? */
  predicate IsInPlace(f: Format, k: nat, src: seq<Byte>, out: seq<Byte>, at: nat)
    requires k < Count(f)
  {
    var i, n := at + Offset(f, k), FieldSize(NthField(f, k));
    i + n <= |src| && i + n <= |out| && IsFieldOnWire(NthField(f, k), src[i..i + n], out[i..i + n])
  }

  lemma {:induction false} SliceOfConcat(a: seq<Byte>, b: seq<Byte>, i: nat, j: nat)
    requires |a| <= i <= j <= |a| + |b|
    ensures (a + b)[i..j] == b[i - |a|..j - |a|]
  {
  }

  lemma {:induction false} SliceOfDrop(s: seq<Byte>, n: nat, i: nat, j: nat)
    requires n <= i <= j <= |s|
    ensures s[n..][i - n..j - n] == s[i..j]
  {
  }

  /** What is in place in what follows the first `n` bytes is in place in the whole. */
  lemma {:induction false} InPlaceAfter(f: Format, k: nat, src: seq<Byte>, a: seq<Byte>, b: seq<Byte>, at: nat, n: nat)
    requires k < Count(f) && |a| == n <= at && n <= |src|
    requires IsInPlace(f, k, src[n..], b, at - n)
    ensures IsInPlace(f, k, src, a + b, at)
  {
    var i, m := at + Offset(f, k), FieldSize(NthField(f, k));
    SliceOfConcat(a, b, i, i + m);
    SliceOfDrop(src, n, i, i + m);
  }

  lemma {:induction false} InPlaceInRest(f: Format, k: nat, src: seq<Byte>, out: seq<Byte>, at: nat)
    requires f.Then? && 0 < k < Count(f) && IsInPlace(f.rest, k - 1, src, out, at + FieldSize(f.field))
    ensures IsInPlace(f, k, src, out, at)
  {
  }

  lemma {:induction false} FirstInPlace(f: Format, src: seq<Byte>, rest: seq<Byte>)
    requires f.Then? && |src| >= FieldSize(f.field)
    ensures IsInPlace(f, 0, src, SwapField(f.field, src[..FieldSize(f.field)]) + rest, 0)
  {
    var n := FieldSize(f.field);
    FieldOnWire(f.field, src[..n]);
    PartsOfConcat(SwapField(f.field, src[..n]), rest);
  }

  /** A pass puts every field in place, whatever follows it in the format. */
  lemma {:induction false} PassPutsFields(f: Format, src: seq<Byte>, size: nat, nulls: bool, k: nat)
    requires !HasUpper(f) && Readable(f, src, size) && k < Count(f)
    ensures IsInPlace(f, k, src, EncodePass(f, src, size, nulls).out, 0)
  {
    var n := FieldSize(f.field);
    var tail := EncodePass(f.rest, src[n..], Shrink(size, n), nulls).out;
    if k == 0 {
      FirstInPlace(f, src, tail);
    } else {
      PassPutsFields(f.rest, src[n..], Shrink(size, n), nulls, k - 1);
      InPlaceAfter(f.rest, k - 1, src, SwapField(f.field, src[..n]), tail, n, n);
      InPlaceInRest(f, k, src, SwapField(f.field, src[..n]) + tail, 0);
    }
  }

  /** Does a pass over the data begin at `at`? A terminated format has one pass only. */
  predicate IsPassStart(f: Format, size: nat, at: nat)
    requires Usable(f)
  {
    if Repeats(f) then at + Size(f) <= size && WholePasses(at, Size(f)) else at == 0 < size
  }

  lemma {:induction false} InPlaceBefore(f: Format, k: nat, src: seq<Byte>, out: seq<Byte>, more: seq<Byte>)
    requires k < Count(f) && IsInPlace(f, k, src, out, 0)
    ensures IsInPlace(f, k, src, out + more, 0)
  {
    var i, n := Offset(f, k), FieldSize(NthField(f, k));
    assert (out + more)[i..i + n] == out[i..i + n];
  }

  lemma {:induction false} FirstPassPutsFields(f: Format, src: seq<Byte>, size: nat, nulls: bool, k: nat)
    requires Usable(f) && Encodable(f, src, size) && IsPassStart(f, size, 0) && k < Count(f)
    ensures IsInPlace(f, k, src, Encode(f, src, size, nulls), 0)
  {
    if Repeats(f) {
      RepeatingPass(f, src, size, nulls);
      var p := EncodePass(f, src, size, nulls);
      PassPutsFields(f, src, size, nulls, k);
      InPlaceBefore(f, k, src, p.out, Encode(f, p.rest, p.size, nulls));
    } else {
      PassPutsFields(f, src, size, nulls, k);
    }
  }

  lemma {:induction false} PassesConcatenate(f: Format, src: seq<Byte>, size: nat, nulls: bool)
    requires Usable(f) && Repeats(f) && Encodable(f, src, size) && 0 < size
    ensures Size(f) <= size && Readable(f, src, size) && |EncodePass(f, src, size, nulls).out| == Size(f)
    ensures Encode(f, src, size, nulls) ==
            EncodePass(f, src, size, nulls).out + Encode(f, src[Size(f)..], size - Size(f), nulls)
  {
    RepeatingPass(f, src, size, nulls);
  }

  lemma {:induction false} RestIsEncodable(f: Format, src: seq<Byte>, size: nat)
    requires Usable(f) && Repeats(f) && Encodable(f, src, size) && 0 < size
    ensures Size(f) <= size <= |src| && Encodable(f, src[Size(f)..], size - Size(f))
  {
  }

  lemma {:induction false} OnePassOn(f: Format, whole: seq<Byte>, src: seq<Byte>, size: nat, nulls: bool, at: nat)
    requires Usable(f) && Repeats(f) && Encodable(f, src, size) && 0 < size
    requires at <= |whole| && whole[at..] == Encode(f, src, size, nulls)
    ensures Size(f) <= size <= |src| && Encodable(f, src[Size(f)..], size - Size(f)) && at + Size(f) <= |whole|
    ensures whole[at + Size(f)..] == Encode(f, src[Size(f)..], size - Size(f), nulls)
  {
    RestIsEncodable(f, src, size);
    PassesConcatenate(f, src, size, nulls);
    var out, tail := EncodePass(f, src, size, nulls).out, Encode(f, src[Size(f)..], size - Size(f), nulls);
    JoinAfresh(whole[at..], out, tail, tail, Size(f));
    DropTwice(whole, at, Size(f));
  }

  /** Is what is written from `at` on what the rest of the data alone gives? */
  predicate IsAfresh(f: Format, src: seq<Byte>, size: nat, nulls: bool, whole: seq<Byte>, at: nat)
    requires Usable(f)
  {
    && at <= |whole| && at <= |src| && at <= size && Encodable(f, src[at..], size - at)
    && whole[at..] == Encode(f, src[at..], size - at, nulls)
  }

  lemma {:induction false} NextIsAfresh(f: Format, src: seq<Byte>, size: nat, nulls: bool, whole: seq<Byte>, at: nat)
    requires Usable(f) && Repeats(f) && IsAfresh(f, src, size, nulls, whole, at) && at < size
    ensures IsAfresh(f, src, size, nulls, whole, at + Size(f))
  {
    OnePassOn(f, whole, src[at..], size - at, nulls, at);
    DropTwice(src, at, Size(f));
    assert (size - at) - Size(f) == size - (at + Size(f));
  }

  /** What is written from the start of a pass on is what the rest of the data alone gives. */
  lemma {:induction false} PassStartsAfresh(
      f: Format, src: seq<Byte>, size: nat, nulls: bool, whole: seq<Byte>, at: nat)
    requires Usable(f) && Encodable(f, src, size) && IsPassStart(f, size, at)
    requires whole == Encode(f, src, size, nulls)
    ensures IsAfresh(f, src, size, nulls, whole, at)
    decreases at
  {
    if at == 0 {
      assert src[0..] == src && whole[0..] == whole;
    } else {
      PassStartsAfresh(f, src, size, nulls, whole, at - Size(f));
      NextIsAfresh(f, src, size, nulls, whole, at - Size(f));
    }
  }

  lemma {:induction false} JoinAfresh(whole: seq<Byte>, out: seq<Byte>, tail: seq<Byte>, end: seq<Byte>, at: nat)
    requires whole == out + tail && |out| <= at <= |out| + |tail| && tail[at - |out|..] == end
    ensures whole[at..] == end
  {
    DropOfConcat(out, tail, at - |out|);
  }

  lemma {:induction false} LiftInPlace(f: Format, k: nat, src: seq<Byte>, out: seq<Byte>, at: nat)
    requires k < Count(f) && at <= |src| && at <= |out| && IsInPlace(f, k, src[at..], out[at..], 0)
    ensures IsInPlace(f, k, src, out, at)
  {
    TakeDrop(out, at);
    InPlaceAfter(f, k, src, out[..at], out[at..], at, at);
  }

  /**
   Whatever the format, and whichever pass over it: what is written for a field is the big-endian form of
   the number that is at the same place in memory; for a literal it is that byte.
   */
  lemma {:induction false} EveryFieldIsOnWire(f: Format, src: seq<Byte>, size: nat, nulls: bool, at: nat, k: nat)
    requires Usable(f) && Encodable(f, src, size) && IsPassStart(f, size, at) && k < Count(f)
    ensures IsInPlace(f, k, src, Encode(f, src, size, nulls), at)
  {
    PassStartsAfresh(f, src, size, nulls, Encode(f, src, size, nulls), at);
    FirstPassPutsFields(f, src[at..], size - at, nulls, k);
    LiftInPlace(f, k, src, Encode(f, src, size, nulls), at);
  }

  /** A number of 16 or 32 bits, as it is in memory, goes to the wire as what reading it there gives. */
  lemma {:induction false} NumbersOnWire(f: Format, w: Word, d: Dword, nulls: bool)
    requires Usable(f) && f.Then? && f.rest == Last(Dollar, false)
    ensures f.field == WordField ==>
              Encodable(f, Le16(w), 2) && BigEndian(Encode(f, Le16(w), 2, nulls)) == w
    ensures f.field == DwordField ==>
              Encodable(f, Le32(d), 4) && BigEndian(Encode(f, Le32(d), 4, nulls)) == d
  {
    LeIsLittleEndian(w, d);
    if f.field == WordField {
      assert Readable(f, Le16(w), 2);
      EveryFieldIsOnWire(f, Le16(w), 2, nulls, 0, 0);
      EncodeTerminated(f, Le16(w), nulls);
      assert Le16(w)[0..2] == Le16(w);
      assert Encode(f, Le16(w), 2, nulls)[0..2] == Encode(f, Le16(w), 2, nulls);
    } else if f.field == DwordField {
      assert Readable(f, Le32(d), 4);
      EveryFieldIsOnWire(f, Le32(d), 4, nulls, 0, 0);
      EncodeTerminated(f, Le32(d), nulls);
      assert Le32(d)[0..4] == Le32(d);
      assert Encode(f, Le32(d), 4, nulls)[0..4] == Encode(f, Le32(d), 4, nulls);
    }
  }

  // ---------- what ends a pass ----------

  predicate IsZero(s: seq<Byte>) {
    forall i :: 0 <= i < |s| ==> s[i] == 0
  }

  /**
   A UID that is null, or of which not all is there, and the null of a string are only written if nulls
   are asked for. A string has at most 32 characters.
   */
  predicate IsEndOnWire(t: Terminator, memory: seq<Byte>, size: nat, nulls: bool, wire: seq<Byte>) {
    match t
    case Dollar => wire == []
    case OptionalUid =>
      if size >= 6 && |memory| >= 6 && !IsZero(memory[..6]) then IsUidOnWire(memory[..6], wire)
      else if nulls then |wire| == 6 && IsZero(wire) else wire == []
    case Ascii =>
      exists n: nat ::
        && n <= |memory| && n <= size && n <= 32 && wire == memory[..n] + (if nulls then [0] else [])
        && (forall i :: 0 <= i < n ==> memory[i] != 0)
        && (n < size && n < 32 && n < |memory| ==> memory[n] == 0)
  }

  lemma {:induction false} ZeroIsNull(s: seq<Byte>)
    requires |s| == 6
    ensures s == NULL_UID <==> IsZero(s)
  {
    if IsZero(s) {
      assert s == [s[0], s[1], s[2], s[3], s[4], s[5]];
    }
  }

  lemma {:induction false} EndOnWire(t: Terminator, src: seq<Byte>, size: nat, nulls: bool)
    requires LastReadable(t, src, size)
    ensures IsEndOnWire(t, src, size, nulls, LastBytes(t, src, size, nulls))
  {
    match t
    case Dollar =>
    case OptionalUid =>
      if size >= 6 {
        ZeroIsNull(src[..6]);
        UidOnWire(src[..6]);
      }
    case Ascii =>
      var n := StrNLen(src, Min(size, ASCII_MAX));
      assert LastBytes(t, src, size, nulls) == src[..n] + if nulls then [0] else [];
  }

  /** The terminator of a format that has one. */
  function Ending(f: Format): Terminator
    requires !HasStray(f) && !Repeats(f)
  {
    if f.Last? then f.terminator else Ending(f.rest)
  }

  /** What is left of the size, an unsigned 32-bit number, after `n` bytes. */
  function SizeLeft(size: nat, n: nat): nat
    requires size < 0x1_0000_0000 && n <= 0x1_0000_0000
  {
    if n <= size then size - n else size + 0x1_0000_0000 - n
  }

  predicate EndIsInPlace(f: Format, src: seq<Byte>, size: nat, nulls: bool, out: seq<Byte>)
    requires !HasStray(f) && !Repeats(f) && size < 0x1_0000_0000 && FixedSize(f) <= 0x1_0000_0000
  {
    var n := FixedSize(f);
    n <= |src| && n <= |out| && IsEndOnWire(Ending(f), src[n..], SizeLeft(size, n), nulls, out[n..])
  }

  lemma {:induction false} ShrinksModulo(size: nat, n: nat, m: nat)
    requires size < 0x1_0000_0000 && n <= 6 && n + m <= 0x1_0000_0000
    ensures Shrink(size, n) == SizeLeft(size, n) < 0x1_0000_0000
    ensures SizeLeft(Shrink(size, n), m) == SizeLeft(size, n + m)
  {
  }

  lemma {:induction false} EndInPlaceAfter(
      f: Format, src: seq<Byte>, size: nat, nulls: bool, a: seq<Byte>, b: seq<Byte>)
    requires !HasStray(f) && !Repeats(f) && size < 0x1_0000_0000 && FixedSize(f) <= 0x1_0000_0000
    requires f.Then? && |a| == FieldSize(f.field) <= |src| && Shrink(size, |a|) < 0x1_0000_0000
    requires EndIsInPlace(f.rest, src[|a|..], Shrink(size, |a|), nulls, b)
    ensures EndIsInPlace(f, src, size, nulls, a + b)
  {
    ShrinksModulo(size, |a|, FixedSize(f.rest));
    DropTwice(src, |a|, FixedSize(f.rest));
    DropOfConcat(a, b, FixedSize(f.rest));
  }

  lemma {:induction false} LastPutsEnd(f: Format, src: seq<Byte>, size: nat, nulls: bool)
    requires f.Last? && !f.upper && Readable(f, src, size) && size < 0x1_0000_0000
    ensures EndIsInPlace(f, src, size, nulls, EncodePass(f, src, size, nulls).out)
  {
    var out := LastBytes(f.terminator, src, size, nulls);
    EndOnWire(f.terminator, src, size, nulls);
    assert EncodePass(f, src, size, nulls).out == out && Ending(f) == f.terminator && FixedSize(f) == 0;
    assert src[0..] == src && out[0..] == out && SizeLeft(size, 0) == size;
  }

  lemma {:induction false} RestPutsEnd(f: Format, src: seq<Byte>, size: nat, left: nat, nulls: bool)
    requires !HasStray(f) && !HasUpper(f) && !Repeats(f) && f.Then? && Readable(f, src, size)
    requires size < 0x1_0000_0000 && FixedSize(f) <= 0x1_0000_0000
    requires left == Shrink(size, FieldSize(f.field)) && left < 0x1_0000_0000
    requires var rest := src[FieldSize(f.field)..];
             EndIsInPlace(f.rest, rest, left, nulls, EncodePass(f.rest, rest, left, nulls).out)
    ensures EndIsInPlace(f, src, size, nulls, EncodePass(f, src, size, nulls).out)
  {
    var n := FieldSize(f.field);
    EndInPlaceAfter(f, src, size, nulls, SwapField(f.field, src[..n]), EncodePass(f.rest, src[n..], left, nulls).out);
  }

  /**
   After its fields, a pass writes what its terminator stands for, and nothing more. If the data are
   shorter than the fields, the size that is left for the terminator is taken modulo 2^32.
   */
  lemma {:induction false} PassPutsEnd(f: Format, src: seq<Byte>, size: nat, nulls: bool)
    requires !HasStray(f) && !HasUpper(f) && !Repeats(f) && Readable(f, src, size)
    requires size < 0x1_0000_0000 && FixedSize(f) <= 0x1_0000_0000
    ensures EndIsInPlace(f, src, size, nulls, EncodePass(f, src, size, nulls).out)
  {
    if f.Last? {
      LastPutsEnd(f, src, size, nulls);
    } else {
      var n := FieldSize(f.field);
      ShrinksModulo(size, n, FixedSize(f.rest));
      PassPutsEnd(f.rest, src[n..], Shrink(size, n), nulls);
      RestPutsEnd(f, src, size, Shrink(size, n), nulls);
    }
  }

  lemma {:induction false} DropOfConcat(a: seq<Byte>, b: seq<Byte>, m: nat)
    requires m <= |b|
    ensures (a + b)[|a| + m..] == b[m..]
  {
  }

  // ---------- format strings ----------

  /** A blank, a character for a field, or 'x' and two hexadecimal digits. */
  predicate IsToken(t: string) {
    if |t| == 1 then t[0] == ' ' || t[0] in "bwduBWDU"
    else |t| == 3 && t[0] in "xX" && t[1] in "0123456789abcdefABCDEF" && t[2] in "0123456789abcdefABCDEF"
  }

  /** The bytes that a token lays out. */
  function TokenSize(t: string): nat
    requires IsToken(t)
  {
    if t[0] == ' ' then 0
    else if t[0] in "xXbB" then 1
    else if t[0] in "wW" then 2
    else if t[0] in "dD" then 4
    else 6
  }

  function Spelled(tokens: seq<string>): string {
    if tokens == [] then "" else tokens[0] + Spelled(tokens[1..])
  }

  predicate AreTokens(tokens: seq<string>) {
    forall i :: 0 <= i < |tokens| ==> IsToken(tokens[i])
  }

  function Total(tokens: seq<string>): nat
    requires AreTokens(tokens)
  {
    if tokens == [] then 0 else TokenSize(tokens[0]) + Total(tokens[1..])
  }

  /** Does no token begin the string? */
  predicate BeginsNoToken(s: string) {
    && (|s| >= 1 ==> !IsToken(s[..1]))
    && (|s| >= 3 ==> !IsToken(s[..3]))
  }

  lemma {:induction false} HexDigits(c: char)
    ensures IsHexDigit(c) <==> c in "0123456789abcdefABCDEF"
  {
  }

  lemma {:induction false} LexOfToken(t: string, rest: string)
    requires IsToken(t)
    ensures t[0] == ' ' ==> Lex(t + rest) == Lex(rest)
    ensures t[0] != ' ' ==>
              Lex(t + rest).Then? && Lex(t + rest).rest == Lex(rest) && FieldSize(Lex(t + rest).field) == TokenSize(t)
  {
    assert (t + rest)[|t|..] == rest;
    if |t| == 3 {
      HexDigits(t[1]);
      HexDigits(t[2]);
    }
  }

  lemma {:induction false} LexOfTokens(tokens: seq<string>, rest: string)
    requires AreTokens(tokens)
    ensures Size(Lex(Spelled(tokens) + rest)) == Total(tokens) + Size(Lex(rest))
    ensures HasStray(Lex(Spelled(tokens) + rest)) <==> HasStray(Lex(rest))
  {
    if tokens == [] {
      assert Spelled(tokens) + rest == rest;
    } else {
      LexOfTokens(tokens[1..], rest);
      SizeOfToken(tokens[0], Spelled(tokens[1..]) + rest);
      SpelledAfter(tokens[0], tokens[1..], rest);
      assert [tokens[0]] + tokens[1..] == tokens;
    }
  }

  lemma {:induction false} SizeOfToken(t: string, rest: string)
    requires IsToken(t)
    ensures Size(Lex(t + rest)) == TokenSize(t) + Size(Lex(rest))
    ensures HasStray(Lex(t + rest)) <==> HasStray(Lex(rest))
  {
    LexOfToken(t, rest);
  }

  lemma {:induction false} SpelledAfter(t: string, more: seq<string>, rest: string)
    ensures Spelled([t] + more) + rest == t + (Spelled(more) + rest)
    ensures IsToken(t) && AreTokens(more) ==> AreTokens([t] + more)
  {
    assert ([t] + more)[1..] == more;
  }

  /** What ends a format: an optional UID, a string, or '$', and nothing but another '$' right after it. */
  function EndSize(c: char): nat {
    if c in "vV" then 6 else if c in "aA" then 32 else 0
  }

  predicate IsEnd(rest: string) {
    rest != "" && rest[0] in "vVaA$" && (|rest| == 1 || rest[1] == '$')
  }

  lemma {:induction false} LexOfEnd(rest: string)
    requires BeginsNoToken(rest) && rest != ""
    ensures IsEnd(rest) ==> !HasStray(Lex(rest)) && Size(Lex(rest)) == EndSize(rest[0])
    ensures !IsEnd(rest) ==> HasStray(Lex(rest))
  {
    assert rest[..1][0] == rest[0];
    if |rest| >= 3 {
      HexDigits(rest[1]);
      HexDigits(rest[2]);
      assert rest[..3][0] == rest[0] && rest[..3][1] == rest[1] && rest[..3][2] == rest[2];
    }
    if |rest| >= 2 {
      assert rest[1..][0] == rest[1];
    }
  }

  /**
   The grammar of formats: tokens, and what ends them, if anything. A string is a valid format if and only
   if it is of that form and lays out between 1 and 231 bytes.
   */
  lemma {:induction false} FormatGrammar(tokens: seq<string>, rest: string)
    requires AreTokens(tokens) && BeginsNoToken(rest)
    ensures rest == "" ==> (Valid(Spelled(tokens) + rest) <==> 1 <= Total(tokens) <= 231)
    ensures rest != "" ==>
              (Valid(Spelled(tokens) + rest) <==> IsEnd(rest) && 1 <= Total(tokens) + EndSize(rest[0]) <= 231)
  {
    LexOfTokens(tokens, rest);
    if rest != "" {
      LexOfEnd(rest);
    }
  }

  /** Every string is of the form that the grammar speaks of. */
  lemma {:induction false} EveryStringIsSpelled(s: string) returns (tokens: seq<string>, rest: string)
    ensures AreTokens(tokens) && BeginsNoToken(rest) && s == Spelled(tokens) + rest
    decreases |s|
  {
    if BeginsNoToken(s) {
      tokens, rest := [], s;
      assert Spelled(tokens) + rest == s;
    } else {
      var n := if IsToken(s[..1]) then 1 else 3;
      var more;
      more, rest := EveryStringIsSpelled(s[n..]);
      tokens := [s[..n]] + more;
      SpelledAfter(s[..n], more, rest);
      assert s == s[..n] + s[n..];
    }
  }

  // ---------- what each character stands for ----------

  /** The number that a hexadecimal digit stands for is its place among the digits. */
  lemma {:induction false} HexDigitIsItsPlace(v: nat)
    requires v < 16
    ensures IsHexDigit("0123456789abcdef"[v]) && HexDigit("0123456789abcdef"[v]) == v
    ensures IsHexDigit("0123456789ABCDEF"[v]) && HexDigit("0123456789ABCDEF"[v]) == v
  {
  }

  /** Is this the field that the token stands for? */
  predicate IsFieldOf(f: Field, t: string, hi: nat, lo: nat)
    requires IsToken(t)
  {
    && FieldSize(f) == TokenSize(t)
    && if t[0] == 'x' then f.Literal? && f.value == hi * 16 + lo
       else !f.Literal? && (f.UidField? <==> t[0] == 'u')
  }

  lemma {:induction false} FieldOfToken(f: Format, t: string, rest: string, hi: nat, lo: nat)
    requires IsToken(t) && t[0] in "bwdux" && hi < 16 && lo < 16 && f == Lex(t + rest)
    requires t[0] == 'x' ==> t[1] == "0123456789abcdef"[hi] && t[2] == "0123456789abcdef"[lo]
    ensures f.Then? && IsFieldOf(f.field, t, hi, lo)
  {
    LexOfToken(t, rest);
    HexDigitIsItsPlace(hi);
    HexDigitIsItsPlace(lo);
  }

  lemma {:induction false} FirstFieldOnWire(f: Format, src: seq<Byte>, size: nat, nulls: bool)
    requires !HasUpper(f) && Readable(f, src, size) && f.Then?
    ensures var out, n := EncodePass(f, src, size, nulls).out, FieldSize(f.field);
            n <= |src| && n <= |out| && IsFieldOnWire(f.field, src[..n], out[..n])
  {
    PassPutsFields(f, src, size, nulls, 0);
    var n, out := FieldSize(f.field), EncodePass(f, src, size, nulls).out;
    assert src[0..n] == src[..n] && out[0..n] == out[..n];
  }

  /** For a number, a UID and a literal: is this what the token writes for these bytes in memory? */
  predicate IsTokenOnWire(t: string, hi: nat, lo: nat, memory: seq<Byte>, wire: seq<Byte>)
    requires t != ""
  {
    if t[0] == 'x' then wire == [hi * 16 + lo]
    else if t[0] == 'u' then IsUidOnWire(memory, wire)
    else BigEndian(wire) == LittleEndian(memory)
  }

  lemma {:induction false} TokenOfField(f: Field, t: string, hi: nat, lo: nat, memory: seq<Byte>, wire: seq<Byte>)
    requires IsToken(t) && IsFieldOf(f, t, hi, lo) && IsFieldOnWire(f, memory, wire)
    ensures |wire| == TokenSize(t) && IsTokenOnWire(t, hi, lo, memory, wire)
  {
  }

  /**
   A format `f` whose first token is a field writes for it, first: for 'b', 'w' and 'd' the big-endian form
   of a number of 1, 2 and 4 bytes, for 'u' a UID, and for 'x' and two digits the byte they stand for.
   */
  lemma {:induction false} TokenOnWire(
      f: Format, t: string, rest: string, src: seq<Byte>, size: nat, nulls: bool, hi: nat, lo: nat)
    requires IsToken(t) && t[0] in "bwdux" && hi < 16 && lo < 16 && f == Lex(t + rest)
    requires t[0] == 'x' ==> t[1] == "0123456789abcdef"[hi] && t[2] == "0123456789abcdef"[lo]
    requires !HasUpper(f) && Readable(f, src, size)
    ensures var out, n := EncodePass(f, src, size, nulls).out, TokenSize(t);
            n <= |src| && n <= |out| && IsTokenOnWire(t, hi, lo, src[..n], out[..n])
  {
    var out, n := EncodePass(f, src, size, nulls).out, TokenSize(t);
    FieldOfToken(f, t, rest, hi, lo);
    FirstFieldOnWire(f, src, size, nulls);
    TokenOfField(f.field, t, hi, lo, src[..n], out[..n]);
  }
}
