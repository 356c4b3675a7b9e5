/**
 The serializing routine itself: it walks the format string character by character, moving a source and
 a destination cursor.
 */
module Encoder {
  import opened Bytes
  import opened Formats
  import opened Encoding

  // ---------- the destination ----------

  /** The buffer after `bytes` are written at `at`. */
  function Splice(buffer: seq<Byte>, at: nat, bytes: seq<Byte>): (r: seq<Byte>)
    requires at + |bytes| <= |buffer|
    ensures |r| == |buffer|
  {
    buffer[..at] + bytes + buffer[at + |bytes|..]
  }

  lemma {:induction false} SpliceTwice(buffer: seq<Byte>, at: nat, a: seq<Byte>, b: seq<Byte>)
    requires at + |a| + |b| <= |buffer|
    ensures Splice(Splice(buffer, at, a), at + |a|, b) == Splice(buffer, at, a + b)
  {
  }

  /** `buffer` is `before`, with `bytes` written at `at`. */
  ghost predicate Holds(buffer: seq<Byte>, before: seq<Byte>, at: nat, bytes: seq<Byte>) {
    && |buffer| == |before| && at + |bytes| <= |before|
    && (forall i :: 0 <= i < |bytes| ==> bytes[i] == buffer[at + i])
    && (forall i :: 0 <= i < at ==> buffer[i] == before[i])
    && (forall i :: at + |bytes| <= i < |before| ==> buffer[i] == before[i])
  }

  lemma {:induction false} HoldsIsSplice(buffer: seq<Byte>, before: seq<Byte>, at: nat, bytes: seq<Byte>)
    requires at + |bytes| <= |before|
    ensures Holds(buffer, before, at, bytes) <==> buffer == Splice(before, at, bytes)
  {
  }

  /** Copies bytes into the destination. */
  method Store(dest: array<Byte>, at: nat, bytes: seq<Byte>)
    requires at + |bytes| <= dest.Length
    modifies dest
    ensures dest[..] == Splice(old(dest[..]), at, bytes)
  {
    forall i | 0 <= i < |bytes| {
      dest[at + i] := bytes[i];
    }
  }

  /** Copies bytes into the destination, after those already written at `at`. */
  method Append(
      dest: array<Byte>, ghost before: seq<Byte>, at: nat, ghost done: seq<Byte>, encoded: nat, bytes: seq<Byte>)
    requires Holds(dest[..], before, at, done) && encoded == |done| && at + encoded + |bytes| <= dest.Length
    modifies dest
    ensures Holds(dest[..], before, at, done + bytes)
  {
    forall i | 0 <= i < |bytes| {
      dest[at + encoded + i] := bytes[i];
    }
    assert forall i :: 0 <= i < |bytes| ==> dest[at + encoded + i] == bytes[i];
  }

  // ---------- one token ----------

  /** The bytes that a fixed-size token writes, from the source bytes at hand. */
  method FieldBytes(c: char, literal: Byte, src: seq<Byte>) returns (bytes: seq<Byte>)
    requires c == 'x' || c == 'b' || c == 'w' || c == 'd' || c == 'u'
    requires c != 'x' ==> |src| >= FieldSize(FieldOf(c).value)
    ensures c == 'x' ==> bytes == [literal]
    ensures c != 'x' ==> bytes == SwapField(FieldOf(c).value, src[..FieldSize(FieldOf(c).value)])
  {
    if c == 'b' {
      bytes := [src[0]];
    } else if c == 'w' {
      bytes := [src[1], src[0]];
    } else if c == 'd' {
      bytes := [src[3], src[2], src[1], src[0]];
    } else if c == 'u' {
      bytes := [src[1], src[0], src[5], src[4], src[3], src[2]];
    } else {
      bytes := [literal];
    }
  }

  /** The bytes that the fixed-size token at the head of the format writes, and its length in characters. */
  method EncodeFieldToken(format: string, src: seq<Byte>, sizeLeft: nat) returns (bytes: seq<Byte>, length: nat)
    requires format != "" && Readable(Lex(format), src, sizeLeft) && !HasStray(Lex(format)) && !HasUpper(Lex(format))
    requires format[0] == 'x' || format[0] == 'b' || format[0] == 'w' || format[0] == 'd' || format[0] == 'u'
    ensures 1 <= length <= |format|
    ensures Lex(format).Then? && Lex(format).rest == Lex(format[length..])
    ensures |bytes| == FieldSize(Lex(format).field) <= |src| && bytes == SwapField(Lex(format).field, src[..|bytes|])
  {
    var literal: Byte := 0;
    length := 1;
    if format[0] == 'x' {
      literal := HexDigit(format[1]) * 16 + HexDigit(format[2]);
      length := 3;
    }
    bytes := FieldBytes(format[0], literal, src);
  }

  /**
   Handles the token at the head of the format: gives the bytes it writes, the number of source bytes it
   uses and its length in characters, and whether it is a terminator.
   */
  method EncodeToken(format: string, src: seq<Byte>, sizeLeft: nat, nulls: bool)
    returns (bytes: seq<Byte>, size: nat, length: nat, stopped: bool)
    requires format != "" && Readable(Lex(format), src, sizeLeft) && !HasStray(Lex(format)) && !HasUpper(Lex(format))
    ensures 1 <= length <= |format|
    ensures stopped ==> EncodePass(Lex(format), src, sizeLeft, nulls) == Pass(bytes, src, sizeLeft, AtTerminator)
    ensures !stopped ==>
      && size <= |src| && size <= 6
      && !HasStray(Lex(format[length..])) && !HasUpper(Lex(format[length..]))
      && Readable(Lex(format[length..]), src[size..], Shrink(sizeLeft, size))
      && EncodePass(Lex(format), src, sizeLeft, nulls) ==
         EncodePass(Lex(format[length..]), src[size..], Shrink(sizeLeft, size), nulls).After(bytes)
  {
    var c := format[0];
    bytes, size, length, stopped := [], 0, 1, false;
    if c == ' ' {
      assert src[0..] == src;
    } else if c == '$' {
      stopped := true;
    } else if c == 'v' {
      stopped := true;
      if sizeLeft < 6 || src[..6] == NULL_UID {
        bytes := if nulls then NULL_UID else [];
      } else {
        bytes := SwapUid(src[..6]);
      }
    } else if c == 'a' {
      stopped := true;
      var n := StrNLen(src, Min(sizeLeft, ASCII_MAX));
      bytes := src[..n] + (if nulls then [0] else []);
    } else if c == 'b' || c == 'w' || c == 'd' || c == 'u' || c == 'x' {
      bytes, length := EncodeFieldToken(format, src, sizeLeft);
      size := |bytes|;
    } else {
      assert false;  // an unknown symbol
    }
  }

  // ---------- the loops ----------

  /** `pass` is what was written so far, `done`, and then a pass over the rest of the format. */
  ghost predicate Continues(pass: Pass, done: seq<Byte>, format: string, src: seq<Byte>, size: nat, nulls: bool) {
    && !HasStray(Lex(format)) && !HasUpper(Lex(format)) && Readable(Lex(format), src, size)
    && pass == EncodePass(Lex(format), src, size, nulls).After(done)
  }

  /** Writes what the token at the head of the format gives. */
  method WriteToken(dest: array<Byte>, ghost before: seq<Byte>, at: nat, ghost done: seq<Byte>, ghost pass: Pass,
                    encoded: nat, format: string, src: seq<Byte>, sizeLeft: nat, nulls: bool)
    returns (size: nat, length: nat, stopped: bool, written: nat, ghost bytes: seq<Byte>)
    requires format != "" && Continues(pass, done, format, src, sizeLeft, nulls)
    requires Holds(dest[..], before, at, done) && encoded == |done| && at + |pass.out| <= dest.Length
    modifies dest
    ensures 1 <= length <= |format| && written == |bytes| && Holds(dest[..], before, at, done + bytes)
    ensures stopped ==> pass.out == done + bytes && pass.stop == AtTerminator
    ensures !stopped ==> size <= |src| && size <= 6 &&
                         Continues(pass, done + bytes, format[length..], src[size..], Shrink(sizeLeft, size), nulls)
  {
    var token;
    token, size, length, stopped := EncodeToken(format, src, sizeLeft, nulls);
    if !stopped {
      AfterTwice(EncodePass(Lex(format[length..]), src[size..], Shrink(sizeLeft, size), nulls), done, token);
    }
    Append(dest, before, at, done, encoded, token);
    written, bytes := |token|, token;
  }

  lemma {:induction false} AfterTwice(p: Pass, a: seq<Byte>, b: seq<Byte>)
    ensures p.After(b).After(a) == p.After(a + b)
  {
  }

  /**
   One pass, whose bytes are written after `done`. Tells how much was written and read, the source size
   left, and whether a terminator was met.
   */
  method FormatEncodeOnce(dest: array<Byte>, ghost before: seq<Byte>, at: nat, ghost done: seq<Byte>, start: nat,
                          format: string, src: seq<Byte>, srcSize: nat, nulls: bool)
    returns (encoded: nat, used: nat, sizeLeft: nat, stopped: bool)
    requires Readable(Lex(format), src, srcSize) && !HasStray(Lex(format)) && !HasUpper(Lex(format))
    requires Holds(dest[..], before, at, done) && start == |done|
    requires at + start + |EncodePass(Lex(format), src, srcSize, nulls).out| <= dest.Length
    modifies dest
    ensures var p := EncodePass(Lex(format), src, srcSize, nulls);
            && encoded == start + |p.out|
            && Holds(dest[..], before, at, done + p.out)
            && stopped == (p.stop == AtTerminator)
            && (!stopped ==> used <= |src| && p.rest == src[used..] && p.size == sizeLeft)
  {
    ghost var pass := EncodePass(Lex(format), src, srcSize, nulls).After(done);
    ghost var now := done;
    ghost var here, left := format, src;
    encoded, used, sizeLeft, stopped := start, 0, srcSize, false;
    var f := 0;
    while f < |format| && !stopped
      invariant 0 <= f <= |format| && used <= |src| && here == format[f..] && left == src[used..]
      invariant encoded == |now| && Holds(dest[..], before, at, now)
      invariant stopped ==> pass.out == now && pass.stop == AtTerminator
      invariant !stopped ==> Continues(pass, now, here, left, sizeLeft, nulls)
      decreases |format| - f, !stopped
    {
      var size, length, written;
      ghost var bytes;
      size, length, stopped, written, bytes :=
        WriteToken(dest, before, at, now, pass, encoded, format[f..], src[used..], sizeLeft, nulls);
      encoded := encoded + written;
      now := now + bytes;
      if !stopped {
        DropTwice(format, f, length);
        DropTwice(src, used, size);
        f, used, sizeLeft := f + length, used + size, Shrink(sizeLeft, size);
        here, left := here[length..], left[size..];
      }
    }
  }

  /** A pass over a usable format meets a terminator, or leaves less to encode and more passes to make. */
  lemma {:induction false} PassStops(f: Format, src: seq<Byte>, size: nat, nulls: bool)
    requires Usable(f) && 0 < size && Encodable(f, src, size)
    ensures Readable(f, src, size)
    ensures var p := EncodePass(f, src, size, nulls);
            if Repeats(f)
            then p.stop == AtEnd && p.size < size && Encodable(f, p.rest, p.size) &&
                 Encode(f, src, size, nulls) == p.out + Encode(f, p.rest, p.size, nulls)
            else p.stop == AtTerminator && Encode(f, src, size, nulls) == p.out
  {
    if Repeats(f) {
      RepeatingPass(f, src, size, nulls);
    } else {
      TerminatedPass(f, src, size, nulls);
    }
  }

  /** What is left to write is what the rest of the source gives, unless the routine has stopped. */
  predicate IsLeft(f: Format, all: seq<Byte>, done: seq<Byte>, left: seq<Byte>, size: nat, stopped: bool, nulls: bool)
    requires Usable(f)
  {
    if stopped then all == done else Encodable(f, left, size) && all == done + Encode(f, left, size, nulls)
  }

  lemma {:induction false} PassLeaves(
      f: Format, all: seq<Byte>, done: seq<Byte>, left: seq<Byte>, size: nat, nulls: bool)
    requires Usable(f) && size > 0 && IsLeft(f, all, done, left, size, false, nulls)
    ensures Readable(f, left, size)
    ensures var p := EncodePass(f, left, size, nulls);
            && |done + p.out| <= |all|
            && IsLeft(f, all, done + p.out, p.rest, p.size, p.stop == AtTerminator, nulls)
            && (p.stop != AtTerminator ==> p.size < size)
  {
    PassStops(f, left, size, nulls);
    var p := EncodePass(f, left, size, nulls);
    if p.stop != AtTerminator {
      Associative(done, p.out, Encode(f, p.rest, p.size, nulls));
    }
  }

  /**
   The whole routine: passes over the format until a terminator is met or the source is used up.
   `src` is the memory from the source pointer on.
   */
  method FormatEncode(dest: array<Byte>, at: nat, format: string, src: seq<Byte>, srcSize: nat, nulls: bool)
    returns (encoded: nat)
    requires Usable(Lex(format)) && Encodable(Lex(format), src, srcSize)
    requires at + |Encode(Lex(format), src, srcSize, nulls)| <= dest.Length
    modifies dest
    ensures var out := Encode(Lex(format), src, srcSize, nulls);
            encoded == |out| && dest[..] == Splice(old(dest[..]), at, out)
  {
    ghost var f, before := Lex(format), dest[..];
    ghost var all := Encode(f, src, srcSize, nulls);
    ghost var done: seq<Byte> := [];
    ghost var left := src;
    var used: nat, sizeLeft: nat, stopped := 0, srcSize, false;
    encoded := 0;
    while sizeLeft > 0 && !stopped
      invariant used <= |src| && left == src[used..]
      invariant encoded == |done| && Holds(dest[..], before, at, done)
      invariant IsLeft(f, all, done, left, sizeLeft, stopped, nulls)
      decreases !stopped, sizeLeft
    {
      PassLeaves(f, all, done, left, sizeLeft, nulls);
      ghost var pass := EncodePass(f, left, sizeLeft, nulls);
      var size;
      encoded, size, sizeLeft, stopped :=
        FormatEncodeOnce(dest, before, at, done, encoded, format, src[used..], sizeLeft, nulls);
      if !stopped {
        used := used + size;
        left := pass.rest;
      }
      done := done + pass.out;
    }
    HoldsIsSplice(dest[..], before, at, all);
  }
}
