/**
 The routine that serializes parameter data by a format, and deserializes it by the same format:
 multi-byte fields change their byte order, an optional UID that is null is left out on the wire, and
 a string loses its terminating null on the wire.
 */
module Encoding {
  import opened Bytes
  import opened Formats

  const SIZE_MODULUS := 0x1_0000_0000

  // ---------- one token ----------

  function SwapUid(s: seq<Byte>): (r: seq<Byte>)
    requires |s| == 6
    ensures |r| == 6
  {
    [s[1], s[0], s[5], s[4], s[3], s[2]]
  }

  /** A field as it is written, from the bytes `s` it has in the source. */
  function SwapField(f: Field, s: seq<Byte>): (r: seq<Byte>)
    requires |s| == FieldSize(f)
    ensures |r| == |s|
  {
    match f
    case ByteField => s
    case WordField => [s[1], s[0]]
    case DwordField => [s[3], s[2], s[1], s[0]]
    case UidField => SwapUid(s)
    case Literal(v) => [v]
  }

  lemma {:induction false} SwapUidTwice(s: seq<Byte>)
    requires |s| == 6
    ensures SwapUid(SwapUid(s)) == s
    ensures SwapUid(s) == NULL_UID <==> s == NULL_UID
  {
    assert s == [s[0], s[1], s[2], s[3], s[4], s[5]];
  }

  lemma {:induction false} SwapTwice(f: Field, s: seq<Byte>)
    requires |s| == FieldSize(f)
    ensures SwapField(f, SwapField(f, s)) == s <==> (f.Literal? ==> s[0] == f.value)
  {
    if f.Literal? {
      assert s == [s[0]];
    }
  }

  const NULL_UID: seq<Byte> := [0, 0, 0, 0, 0, 0]

  /** The length of the string at the start of `s`, of which at most `max` bytes are looked at. */
  function StrNLen(s: seq<Byte>, max: nat): (n: nat)
    ensures n <= max && n <= |s|
    ensures forall i :: 0 <= i < n ==> s[i] != 0
    ensures n < max && n < |s| ==> s[n] == 0
  {
    if max == 0 || s == [] || s[0] == 0 then 0 else 1 + StrNLen(s[1..], max - 1)
  }

  /** Does `src` hold what is read for a terminator? */
  predicate LastReadable(t: Terminator, src: seq<Byte>, size: nat) {
    match t
    case OptionalUid => size < 6 || |src| >= 6
    case Ascii => |src| >= Min(size, ASCII_MAX)
    case Dollar => true
  }

  /** What a terminator writes. */
  function LastBytes(t: Terminator, src: seq<Byte>, size: nat, nulls: bool): seq<Byte>
    requires LastReadable(t, src, size)
  {
    match t
    case OptionalUid =>
      if size < 6 || src[..6] == NULL_UID then (if nulls then NULL_UID else []) else SwapUid(src[..6])
    case Ascii => src[..StrNLen(src, Min(size, ASCII_MAX))] + (if nulls then [0] else [])
    case Dollar => []
  }

  // ---------- one pass ----------

  /** Why a pass over the format ended. */
  datatype Stop = AtEnd | AtTerminator | AtUnknown

  /** What one pass writes, and the source bytes left, with the size the routine thinks they have. */
  datatype Pass = Pass(out: seq<Byte>, rest: seq<Byte>, size: nat, stop: Stop) {
    function After(bytes: seq<Byte>): Pass {
      Pass(bytes + out, rest, size, stop)
    }
  }

  /** The source size, an unsigned 32-bit number, after `n` bytes are used. */
  function Shrink(size: nat, n: nat): nat
    requires n <= 6
  {
    if n <= size then size - n else size - n + SIZE_MODULUS
  }

  /** Does the memory `src` hold every byte that a pass over the format reads? */
  predicate Readable(f: Format, src: seq<Byte>, size: nat) {
    match f
    case EndOfString => true
    case Stray => true
    case Last(t, upper) => upper || LastReadable(t, src, size)
    case Then(field, upper, rest) =>
      var n := FieldSize(field);
      upper || (|src| >= n && Readable(rest, src[n..], Shrink(size, n)))
  }

  /** One pass over the format, with the branches the routine takes. Upper-case tokens are unknown to it. */
  function EncodePass(f: Format, src: seq<Byte>, size: nat, nulls: bool): Pass
    requires Readable(f, src, size)
  {
    match f
    case EndOfString => Pass([], src, size, AtEnd)
    case Stray => Pass([], src, size, AtUnknown)
    case Last(t, upper) =>
      if upper then Pass([], src, size, AtUnknown) else Pass(LastBytes(t, src, size, nulls), src, size, AtTerminator)
    case Then(field, upper, rest) =>
      if upper then Pass([], src, size, AtUnknown)
      else
        var n := FieldSize(field);
        EncodePass(rest, src[n..], Shrink(size, n), nulls).After(SwapField(field, src[..n]))
  }

  // ---------- formats the routine can follow ----------

  predicate HasUpper(f: Format) {
    match f
    case EndOfString => false
    case Stray => false
    case Last(_, upper) => upper
    case Then(_, upper, rest) => upper || HasUpper(rest)
  }

  /** Without a terminator, the format is used over again until the source is used up. */
  predicate Repeats(f: Format) {
    f.EndOfString? || (f.Then? && Repeats(f.rest))
  }

  lemma {:induction false} UnknownIffUpper(f: Format, src: seq<Byte>, size: nat, nulls: bool)
    requires !HasStray(f) && Readable(f, src, size)
    ensures EncodePass(f, src, size, nulls).stop == AtUnknown <==> HasUpper(f)
  {
    if f.Then? && !f.upper {
      var n := FieldSize(f.field);
      UnknownIffUpper(f.rest, src[n..], Shrink(size, n), nulls);
    }
  }

  lemma {:induction false} PassFits(f: Format, src: seq<Byte>, size: nat, nulls: bool)
    requires Readable(f, src, size)
    ensures |EncodePass(f, src, size, nulls).out| <= Size(f) + (if nulls then 1 else 0)
  {
    if f.Then? && !f.upper {
      var n := FieldSize(f.field);
      PassFits(f.rest, src[n..], Shrink(size, n), nulls);
    }
  }

  /**
   The validator's promise about the routine. Over a format it accepts, a pass writes at most 231 bytes,
   and meets a token that it does not know if and only if one is in upper case: the validator accepts
   either case, the routine only lower case.
   */
  lemma {:induction false} ValidFormatsEncode(s: string, src: seq<Byte>, size: nat)
    requires Valid(s) && Readable(Lex(s), src, size)
    ensures EncodePass(Lex(s), src, size, false).stop == AtUnknown <==> HasUpper(Lex(s))
    ensures |EncodePass(Lex(s), src, size, false).out| <= PD_MAX
  {
    UnknownIffUpper(Lex(s), src, size, false);
    PassFits(Lex(s), src, size, false);
  }

  /** The formats the routine can follow: valid, and in lower case. */
  predicate Usable(f: Format) {
    !HasStray(f) && !HasUpper(f) && 0 < Size(f) <= PD_MAX
  }

  // ---------- all passes ----------

  predicate WholePasses(size: nat, per: nat)
    requires per > 0
  {
    size == 0 || (per <= size && WholePasses(size - per, per))
  }

  /**
   The source holds all that is read. If the format repeats, the source must be a whole number of
   passes long: the size would otherwise wrap around below zero and the routine run through memory.
   */
  predicate Encodable(f: Format, src: seq<Byte>, size: nat)
    requires Usable(f)
  {
    && size < SIZE_MODULUS
    && if Repeats(f) then WholePasses(size, Size(f)) && size <= |src| else size == 0 || Readable(f, src, size)
  }

  lemma {:induction false} RepeatingPass(f: Format, src: seq<Byte>, size: nat, nulls: bool)
    requires !HasUpper(f) && Repeats(f) && Size(f) <= size <= |src|
    ensures Readable(f, src, size)
    ensures var p := EncodePass(f, src, size, nulls);
            p.rest == src[Size(f)..] && p.size == size - Size(f) && p.stop == AtEnd && |p.out| == Size(f)
  {
    if f.Then? {
      var n := FieldSize(f.field);
      RepeatingPass(f.rest, src[n..], size - n, nulls);
      DropTwice(src, n, Size(f.rest));
    }
  }

  lemma {:induction false} TerminatedPass(f: Format, src: seq<Byte>, size: nat, nulls: bool)
    requires !HasStray(f) && !HasUpper(f) && !Repeats(f) && Readable(f, src, size)
    ensures EncodePass(f, src, size, nulls).stop == AtTerminator
  {
    if f.Then? {
      var n := FieldSize(f.field);
      TerminatedPass(f.rest, src[n..], Shrink(size, n), nulls);
    }
  }

  /** Everything the routine writes. */
  function Encode(f: Format, src: seq<Byte>, size: nat, nulls: bool): (out: seq<Byte>)
    requires Usable(f) && Encodable(f, src, size)
    ensures Repeats(f) ==> |out| == size
    ensures !Repeats(f) ==> |out| <= Size(f) + 1
    ensures !Repeats(f) && !nulls ==> |out| <= Size(f)
    decreases size
  {
    if size == 0 then []
    else if Repeats(f) then
      RepeatingPass(f, src, size, nulls);
      var p := EncodePass(f, src, size, nulls);
      p.out + Encode(f, p.rest, p.size, nulls)
    else
      PassFits(f, src, size, nulls);
      EncodePass(f, src, size, nulls).out
  }

  // ---------- facts about sequences ----------

  lemma {:induction false} DropTwice<T>(s: seq<T>, m: nat, n: nat)
    requires m + n <= |s|
    ensures s[m..][n..] == s[m + n..]
  {
  }

  lemma {:induction false} Associative(a: seq<Byte>, b: seq<Byte>, c: seq<Byte>)
    ensures (a + b) + c == a + (b + c)
  {
  }

  lemma {:induction false} PrefixInTwo(s: seq<Byte>, n: nat, m: nat)
    requires n + m <= |s|
    ensures s[..n + m] == s[..n] + s[n..][..m]
  {
  }

  lemma {:induction false} TakeDrop(s: seq<Byte>, n: nat)
    requires n <= |s|
    ensures s[..n] + s[n..] == s
  {
  }

  lemma {:induction false} PartsOfConcat(a: seq<Byte>, b: seq<Byte>)
    ensures (a + b)[..|a|] == a && (a + b)[|a|..] == b
  {
  }

  lemma {:induction false} SplitEquality(a: seq<Byte>, b: seq<Byte>, c: seq<Byte>, d: seq<Byte>)
    requires |a| == |c|
    ensures a + b == c + d <==> a == c && b == d
  {
    PartsOfConcat(a, b);
    PartsOfConcat(c, d);
  }

  // ---------- deserializing what was serialized ----------

  /** Does the source hold, where the format has a literal, that literal? */
  predicate LiteralsMatch(f: Format, src: seq<Byte>) {
    f.Then? && |src| >= FieldSize(f.field) ==>
      (f.field.Literal? ==> src[0] == f.field.value) && LiteralsMatch(f.rest, src[FieldSize(f.field)..])
  }

  /** The bytes the fixed-size fields take up. */
  function FixedSize(f: Format): nat {
    if f.Then? then FieldSize(f.field) + FixedSize(f.rest) else 0
  }

  /** What a terminator stands for in memory. */
  function LastImage(t: Terminator, src: seq<Byte>, size: nat): seq<Byte>
    requires LastReadable(t, src, size)
  {
    match t
    case OptionalUid => if size < 6 then NULL_UID else src[..6]
    case Ascii => src[..StrNLen(src, Min(size, ASCII_MAX))] + [0]
    case Dollar => []
  }

  /** The memory that the format describes: the source, with an absent UID as null and a string ended by null. */
  function Image(f: Format, src: seq<Byte>, size: nat): seq<Byte>
    requires Readable(f, src, size)
  {
    match f
    case EndOfString => []
    case Stray => []
    case Last(t, upper) => if upper then [] else LastImage(t, src, size)
    case Then(field, upper, rest) =>
      if upper then []
      else src[..FieldSize(field)] + Image(rest, src[FieldSize(field)..], Shrink(size, FieldSize(field)))
  }

  lemma {:induction false} StrNLenOfPrefix(s: seq<Byte>, n: nat, junk: seq<Byte>)
    requires n <= |s| && forall i :: 0 <= i < n ==> s[i] != 0
    ensures StrNLen(s[..n] + junk, n) == n
  {
    if n > 0 {
      assert (s[..n] + junk)[1..] == s[1..][..n - 1] + junk;
      StrNLenOfPrefix(s[1..], n - 1, junk);
    }
  }

  lemma {:induction false} LastRoundTrip(t: Terminator, src: seq<Byte>, size: nat, junk: seq<Byte>)
    requires LastReadable(t, src, size)
    ensures var out := LastBytes(t, src, size, false);
            LastReadable(t, out + junk, |out|) && LastBytes(t, out + junk, |out|, true) == LastImage(t, src, size)
  {
    var out := LastBytes(t, src, size, false);
    PartsOfConcat(out, junk);
    if t.Ascii? {
      StrNLenOfPrefix(src, StrNLen(src, Min(size, ASCII_MAX)), junk);
    } else if t.OptionalUid? && size >= 6 {
      SwapUidTwice(src[..6]);
    }
  }

  /** May the source, with the literals in place, be serialized and deserialized by one pass? */
  predicate Transferable(f: Format, src: seq<Byte>, size: nat) {
    !HasStray(f) && !HasUpper(f) && FixedSize(f) <= size && Readable(f, src, size) && LiteralsMatch(f, src)
  }

  lemma {:induction false} PassOverField(f: Format, field: seq<Byte>, rest: seq<Byte>, size: nat, nulls: bool)
    requires f.Then? && !f.upper && |field| == FieldSize(f.field) <= size
    requires Readable(f.rest, rest, size - |field|)
    ensures Readable(f, field + rest, size)
    ensures EncodePass(f, field + rest, size, nulls).out ==
            SwapField(f.field, field) + EncodePass(f.rest, rest, size - |field|, nulls).out
  {
    PartsOfConcat(field, rest);
  }

  /**
   Deserializing what was serialized gives the source back, as the format describes it, whatever
   follows it in the buffer: over every format the routine can follow, if the literals are in place.
   */
  lemma {:induction false} PassRoundTrip(f: Format, src: seq<Byte>, size: nat, junk: seq<Byte>)
    requires Transferable(f, src, size)
    ensures var out := EncodePass(f, src, size, false).out;
            Readable(f, out + junk, |out|) && EncodePass(f, out + junk, |out|, true).out == Image(f, src, size)
  {
    if f.Then? {
      var n := FieldSize(f.field);
      var field, tail := SwapField(f.field, src[..n]), EncodePass(f.rest, src[n..], size - n, false).out;
      PassRoundTrip(f.rest, src[n..], size - n, junk);
      PassOverField(f, field, tail + junk, n + |tail|, true);
      Associative(field, tail, junk);
      SwapTwice(f.field, src[..n]);
    } else if f.Last? {
      LastRoundTrip(f.terminator, src, size, junk);
    }
  }

  // ---------- formats of fixed-size fields ----------

  /** Fixed-size fields only, with or without a '$' after them. */
  predicate IsFixedFormat(f: Format) {
    f.EndOfString? || (f.Last? && f.terminator.Dollar?) || (f.Then? && IsFixedFormat(f.rest))
  }

  predicate HasLiteral(f: Format) {
    f.Then? && (f.field.Literal? || HasLiteral(f.rest))
  }

  /** Each field swapped where it stands. */
  function SwapAll(f: Format, src: seq<Byte>): (out: seq<Byte>)
    requires IsFixedFormat(f) && |src| >= Size(f)
    ensures |out| == Size(f)
  {
    if f.Then? then SwapField(f.field, src[..FieldSize(f.field)]) + SwapAll(f.rest, src[FieldSize(f.field)..]) else []
  }

  /** One pass over a format of fixed-size fields depends on nothing but the bytes it reads. */
  lemma {:induction false} FixedPass(f: Format, src: seq<Byte>, size: nat, nulls: bool)
    requires IsFixedFormat(f) && !HasUpper(f) && |src| >= Size(f)
    ensures Readable(f, src, size)
    ensures EncodePass(f, src, size, nulls).out == SwapAll(f, src)
  {
    if f.Then? {
      var n := FieldSize(f.field);
      FixedPass(f.rest, src[n..], Shrink(size, n), nulls);
    }
  }

  lemma {:induction false} SwapOverField(f: Format, field: seq<Byte>, rest: seq<Byte>)
    requires f.Then? && |field| == FieldSize(f.field) && IsFixedFormat(f.rest) && |rest| >= Size(f.rest)
    ensures SwapAll(f, field + rest) == SwapField(f.field, field) + SwapAll(f.rest, rest)
  {
    PartsOfConcat(field, rest);
  }

  /** Swapping twice gives the source back if and only if the source holds the format's literals. */
  lemma {:induction false} SwapAllTwice(f: Format, src: seq<Byte>, junk: seq<Byte>)
    requires IsFixedFormat(f) && |src| >= Size(f)
    ensures SwapAll(f, SwapAll(f, src) + junk) == src[..Size(f)] <==> LiteralsMatch(f, src)
  {
    if f.Then? {
      var n, m := FieldSize(f.field), Size(f.rest);
      var field, tail := SwapField(f.field, src[..n]), SwapAll(f.rest, src[n..]);
      SwapTwice(f.field, src[..n]);
      SwapAllTwice(f.rest, src[n..], junk);
      SwapOverField(f, field, tail + junk);
      Associative(field, tail, junk);
      SplitEquality(SwapField(f.field, field), SwapAll(f.rest, tail + junk), src[..n], src[n..][..m]);
      PrefixInTwo(src, n, m);
    }
  }

  lemma {:induction false} NoLiteralsMatch(f: Format, src: seq<Byte>)
    requires !HasLiteral(f)
    ensures LiteralsMatch(f, src)
  {
    if f.Then? && |src| >= FieldSize(f.field) {
      NoLiteralsMatch(f.rest, src[FieldSize(f.field)..]);
    }
  }

  lemma {:induction false} RepeatingIsFixed(f: Format)
    requires Repeats(f)
    ensures IsFixedFormat(f)
  {
    if f.Then? {
      RepeatingIsFixed(f.rest);
    }
  }

  lemma {:induction false} SwapReadsPrefix(f: Format, src: seq<Byte>, junk: seq<Byte>)
    requires IsFixedFormat(f) && |src| >= Size(f)
    ensures SwapAll(f, src + junk) == SwapAll(f, src)
  {
    if f.Then? {
      var n := FieldSize(f.field);
      SwapReadsPrefix(f.rest, src[n..], junk);
      SwapOverField(f, src[..n], src[n..] + junk);
      Associative(src[..n], src[n..], junk);
      TakeDrop(src, n);
    }
  }

  /** Data made up of fixed-size fields fits the format: one pass if it is terminated, else any number. */
  predicate Fits(f: Format, size: nat)
    requires Usable(f)
  {
    IsFixedFormat(f) && size < SIZE_MODULUS && if Repeats(f) then WholePasses(size, Size(f)) else size == Size(f)
  }

  lemma {:induction false} FitsIsEncodable(f: Format, src: seq<Byte>, size: nat)
    requires Usable(f) && Fits(f, size) && size <= |src|
    ensures Encodable(f, src, size)
  {
    if !Repeats(f) {
      FixedPass(f, src, size, false);
    }
  }

  lemma {:induction false} EncodeRepeating(f: Format, once: seq<Byte>, rest: seq<Byte>, size: nat, nulls: bool)
    requires Usable(f) && Repeats(f) && size < SIZE_MODULUS
    requires |once| == Size(f) <= size && WholePasses(size - Size(f), Size(f)) && size - Size(f) <= |rest|
    ensures IsFixedFormat(f)
    ensures Encode(f, once + rest, size, nulls) == SwapAll(f, once) + Encode(f, rest, size - Size(f), nulls)
  {
    var src := once + rest;
    PartsOfConcat(once, rest);
    RepeatingIsFixed(f);
    RepeatingPass(f, src, size, nulls);
    FixedPass(f, src, size, nulls);
    SwapReadsPrefix(f, once, rest);
  }

  lemma {:induction false} EncodeTerminated(f: Format, src: seq<Byte>, nulls: bool)
    requires Usable(f) && IsFixedFormat(f) && !Repeats(f) && Size(f) <= |src|
    ensures Encodable(f, src, Size(f))
    ensures Encode(f, src, Size(f), nulls) == SwapAll(f, src)
  {
    FixedPass(f, src, Size(f), nulls);
  }

  /** Does the data hold the format's literals, on every pass? */
  predicate LiteralsInPlace(f: Format, src: seq<Byte>, size: nat)
    requires Usable(f) && Fits(f, size) && size <= |src|
    decreases size
  {
    if !Repeats(f) then LiteralsMatch(f, src)
    else
      size == 0 || (LiteralsMatch(f, src[..Size(f)]) && LiteralsInPlace(f, src[Size(f)..], size - Size(f)))
  }

  lemma {:induction false} NoLiteralsInPlace(f: Format, src: seq<Byte>, size: nat)
    requires Usable(f) && !HasLiteral(f) && Fits(f, size) && size <= |src|
    ensures LiteralsInPlace(f, src, size)
    decreases size
  {
    if !Repeats(f) {
      NoLiteralsMatch(f, src);
    } else if size > 0 {
      NoLiteralsMatch(f, src[..Size(f)]);
      NoLiteralsInPlace(f, src[Size(f)..], size - Size(f));
    }
  }

  lemma {:induction false} EncodeTwiceTerminated(f: Format, src: seq<Byte>, junk: seq<Byte>, first: bool, second: bool)
    requires Usable(f) && IsFixedFormat(f) && !Repeats(f) && Size(f) <= |src|
    ensures Encodable(f, src, Size(f))
    ensures var out := Encode(f, src, Size(f), first);
            && |out| == Size(f)
            && Encodable(f, out + junk, Size(f))
            && (Encode(f, out + junk, Size(f), second) == src[..Size(f)] <==> LiteralsMatch(f, src))
  {
    EncodeTerminated(f, src, first);
    EncodeTerminated(f, SwapAll(f, src) + junk, second);
    SwapAllTwice(f, src, junk);
  }

  lemma {:induction false} EncodeTwiceStep(
      f: Format, once: seq<Byte>, rest: seq<Byte>, size: nat, junk: seq<Byte>, first: bool, second: bool)
    requires Usable(f) && Repeats(f) && size < SIZE_MODULUS
    requires |once| == Size(f) <= size && WholePasses(size - Size(f), Size(f)) && size - Size(f) <= |rest|
    ensures IsFixedFormat(f)
    ensures var out, tail := Encode(f, once + rest, size, first), Encode(f, rest, size - Size(f), first);
            Encode(f, out + junk, size, second) ==
            SwapAll(f, SwapAll(f, once)) + Encode(f, tail + junk, size - Size(f), second)
  {
    var tail := Encode(f, rest, size - Size(f), first);
    EncodeRepeating(f, once, rest, size, first);
    EncodeRepeating(f, SwapAll(f, once), tail + junk, size, second);
    Associative(SwapAll(f, once), tail, junk);
  }

  lemma {:induction false} SwapOnceTwice(f: Format, once: seq<Byte>)
    requires IsFixedFormat(f) && |once| == Size(f)
    ensures SwapAll(f, SwapAll(f, once)) == once <==> LiteralsMatch(f, once)
  {
    SwapAllTwice(f, once, []);
    assert SwapAll(f, once) + [] == SwapAll(f, once) && once[..Size(f)] == once;
  }

  lemma {:induction false} LiteralsOfRepeating(f: Format, src: seq<Byte>, size: nat)
    requires Usable(f) && Repeats(f) && Fits(f, size) && 0 < size <= |src|
    ensures Fits(f, size - Size(f))
    ensures LiteralsInPlace(f, src, size) <==>
            LiteralsMatch(f, src[..Size(f)]) && LiteralsInPlace(f, src[Size(f)..], size - Size(f))
  {
  }

  lemma {:induction false} EncodeNothingTwice(f: Format, src: seq<Byte>, junk: seq<Byte>, first: bool, second: bool)
    requires Usable(f) && Repeats(f) && Fits(f, 0)
    ensures LiteralsInPlace(f, src, 0) && Encode(f, src, 0, first) == [] && Encode(f, [] + junk, 0, second) == []
  {
  }

  lemma {:induction false} EncodeRepeatingLength(f: Format, src: seq<Byte>, size: nat, nulls: bool)
    requires Usable(f) && Repeats(f) && Fits(f, size) && 0 < size <= |src|
    requires |Encode(f, src[Size(f)..], size - Size(f), nulls)| == size - Size(f)
    ensures |Encode(f, src, size, nulls)| == size
  {
    TakeDrop(src, Size(f));
    EncodeRepeating(f, src[..Size(f)], src[Size(f)..], size, nulls);
  }

  lemma {:induction false} EncodeTwiceRepeating(
      f: Format, once: seq<Byte>, rest: seq<Byte>, size: nat, junk: seq<Byte>, first: bool, second: bool)
    requires Usable(f) && Repeats(f) && size < SIZE_MODULUS
    requires |once| == Size(f) <= size && WholePasses(size - Size(f), Size(f)) && size - Size(f) <= |rest|
    ensures IsFixedFormat(f)
    ensures var out, tail := Encode(f, once + rest, size, first), Encode(f, rest, size - Size(f), first);
            Encode(f, out + junk, size, second) == once + rest[..size - Size(f)] <==>
            LiteralsMatch(f, once) && Encode(f, tail + junk, size - Size(f), second) == rest[..size - Size(f)]
  {
    var tail := Encode(f, rest, size - Size(f), first);
    EncodeTwiceStep(f, once, rest, size, junk, first, second);
    SwapOnceTwice(f, once);
    SplitEquality(SwapAll(f, SwapAll(f, once)), Encode(f, tail + junk, size - Size(f), second), once,
                  rest[..size - Size(f)]);
  }

  /** Does the routine, on what it wrote, give the data back? */
  predicate IsUndone(f: Format, src: seq<Byte>, size: nat, junk: seq<Byte>, first: bool, second: bool)
    requires Usable(f) && Encodable(f, src, size) && size <= |src|
    requires Encodable(f, Encode(f, src, size, first) + junk, size)
  {
    Encode(f, Encode(f, src, size, first) + junk, size, second) == src[..size]
  }

  lemma {:induction false} EncodeTwicePasses(
      f: Format, src: seq<Byte>, size: nat, junk: seq<Byte>, first: bool, second: bool)
    requires Usable(f) && Repeats(f) && Fits(f, size) && 0 < size <= |src|
    requires |Encode(f, src[Size(f)..], size - Size(f), first)| == size - Size(f)
    ensures |Encode(f, src, size, first)| == size
    ensures IsUndone(f, src, size, junk, first, second) <==>
            LiteralsMatch(f, src[..Size(f)]) && IsUndone(f, src[Size(f)..], size - Size(f), junk, first, second)
  {
    EncodeRepeatingLength(f, src, size, first);
    EncodeTwiceRepeating(f, src[..Size(f)], src[Size(f)..], size, junk, first, second);
    TakeDrop(src, Size(f));
    PrefixInTwo(src, Size(f), size - Size(f));
  }

  lemma {:induction false} RepeatingTwice(
      f: Format, src: seq<Byte>, size: nat, junk: seq<Byte>, first: bool, second: bool)
    requires Usable(f) && Repeats(f) && Fits(f, size) && size <= |src|
    ensures |Encode(f, src, size, first)| == size
    ensures IsUndone(f, src, size, junk, first, second) <==> LiteralsInPlace(f, src, size)
    decreases size
  {
    if size == 0 {
      EncodeNothingTwice(f, src, junk, first, second);
    } else {
      LiteralsOfRepeating(f, src, size);
      RepeatingTwice(f, src[Size(f)..], size - Size(f), junk, first, second);
      EncodeTwicePasses(f, src, size, junk, first, second);
    }
  }

  /**
   Over fixed-size fields, the routine undoes itself, whatever follows the data, whatever is asked of it
   about nulls, and however many passes the data takes, if and only if the data hold the format's literals.
   */
  lemma {:induction false} EncodeTwice(
      f: Format, src: seq<Byte>, size: nat, junk: seq<Byte>, first: bool, second: bool)
    requires Usable(f) && Fits(f, size) && size <= |src|
    ensures Encodable(f, src, size)
    ensures var out := Encode(f, src, size, first);
            && |out| == size
            && Encodable(f, out + junk, size)
            && (Encode(f, out + junk, size, second) == src[..size] <==> LiteralsInPlace(f, src, size))
  {
    FitsIsEncodable(f, src, size);
    if Repeats(f) {
      RepeatingTwice(f, src, size, junk, first, second);
    } else {
      EncodeTwiceTerminated(f, src, junk, first, second);
    }
  }
}
