/**
 Format strings, which say how parameter data is laid out on the wire, and their validation.
 */
module Formats {
  import opened Bytes

  const PD_MAX := 231
  const ASCII_MAX := 32

  /** The fields that take up the same number of bytes in memory and on the wire. */
  datatype Field = ByteField | WordField | DwordField | UidField | Literal(value: Byte)

  /** An optional UID, a string, or the '$' character: nothing is laid out after one of these. */
  datatype Terminator = OptionalUid | Ascii | Dollar

  /**
   A format string as the sequence of its tokens. `upper` tells that a token is in upper case. `Stray`
   is a character that may not stand where it does.
   */
  datatype Format =
    | EndOfString
    | Stray
    | Last(terminator: Terminator, upper: bool)
    | Then(field: Field, upper: bool, rest: Format)

  // ---------- reading a format ----------

  predicate IsHexDigit(c: char) {
    '0' <= c <= '9' || 'a' <= c <= 'f' || 'A' <= c <= 'F'
  }

  function HexDigit(c: char): (d: Byte)
    requires IsHexDigit(c)
    ensures d < 16
  {
    if c <= '9' then c as int - '0' as int
    else if c <= 'F' then c as int - 'A' as int + 10
    else c as int - 'a' as int + 10
  }

  /** The field of a single-character token, in either case. */
  function FieldOf(c: char): Option<Field> {
    if c == 'b' || c == 'B' then Some(ByteField)
    else if c == 'w' || c == 'W' then Some(WordField)
    else if c == 'd' || c == 'D' then Some(DwordField)
    else if c == 'u' || c == 'U' then Some(UidField)
    else None
  }

  function TerminatorOf(c: char): Option<Terminator> {
    if c == 'v' || c == 'V' then Some(OptionalUid)
    else if c == 'a' || c == 'A' then Some(Ascii)
    else if c == '$' then Some(Dollar)
    else None
  }

  predicate IsUpper(c: char) {
    'A' <= c <= 'Z'
  }

  function Lex(s: string): Format {
    if s == "" then EndOfString
    else if s[0] == ' ' then Lex(s[1..])
    else if s[0] == 'x' || s[0] == 'X' then
      if |s| >= 3 && IsHexDigit(s[1]) && IsHexDigit(s[2])
      then Then(Literal(HexDigit(s[1]) * 16 + HexDigit(s[2])), s[0] == 'X', Lex(s[3..]))
      else Stray
    else if FieldOf(s[0]).Some? then Then(FieldOf(s[0]).value, IsUpper(s[0]), Lex(s[1..]))
    else if TerminatorOf(s[0]).Some? && MayFollowTerminator(s[1..]) then Last(TerminatorOf(s[0]).value, IsUpper(s[0]))
    else Stray
  }

  /** After a terminator the string ends, or another '$' follows. */
  predicate MayFollowTerminator(s: string) {
    s == "" || s[0] == '$'
  }

  // ---------- validity ----------

  function FieldSize(f: Field): (n: nat)
    ensures 1 <= n <= 6
  {
    match f
    case ByteField => 1
    case WordField => 2
    case DwordField => 4
    case UidField => 6
    case Literal(_) => 1
  }

  /** The bytes a terminator takes up in memory, at most. */
  function TerminatorSize(t: Terminator): nat {
    match t
    case OptionalUid => 6
    case Ascii => 32
    case Dollar => 0
  }

  /** The bytes one pass over the format takes up in memory, at most. */
  function Size(f: Format): nat {
    match f
    case EndOfString => 0
    case Stray => 0
    case Last(t, _) => TerminatorSize(t)
    case Then(field, _, rest) => FieldSize(field) + Size(rest)
  }

  predicate HasStray(f: Format) {
    f.Stray? || (f.Then? && HasStray(f.rest))
  }

  /** May this be the rest of a format whose other tokens take up `size` bytes? */
  predicate Acceptable(size: nat, f: Format) {
    !HasStray(f) && 0 < size + Size(f) <= PD_MAX
  }

  /** A valid format has no stray character and describes between 1 and 231 bytes. */
  predicate Valid(s: string) {
    Acceptable(0, Lex(s))
  }

  /**
   Decides whether a format is valid. A format of nothing but spaces makes the library divide by zero,
   so it must not be passed.
   */
  method FormatIsValid(format: string) returns (ok: bool)
    requires Lex(format) != EndOfString
    ensures ok <==> Valid(format)
  {
    var i, parameterSize, terminated := 0, 0, false;
    while i < |format| && !terminated
      invariant 0 <= i <= |format| && 0 <= parameterSize <= PD_MAX
      invariant parameterSize == 0 && !terminated ==> Lex(format[i..]) != EndOfString
      invariant Valid(format) <==> if terminated
                                   then 0 < parameterSize && MayFollowTerminator(format[i..])
                                   else Acceptable(parameterSize, Lex(format[i..]))
      decreases |format| - i
    {
      ghost var here := format[i..];
      var c := format[i];
      if c == ' ' {
        i := i + 1;
        assert here[1..] == format[i..];
        continue;
      }
      var size;
      if c == 'x' || c == 'X' {
        if !(i + 2 < |format| && IsHexDigit(format[i + 1]) && IsHexDigit(format[i + 2])) {
          return false;
        }
        size := 1;
        i := i + 3;
        assert here[3..] == format[i..];
      } else {
        if FieldOf(c).Some? {
          size := FieldSize(FieldOf(c).value);
        } else if TerminatorOf(c).Some? {
          size := TerminatorSize(TerminatorOf(c).value);
          terminated := true;
        } else {
          return false;
        }
        i := i + 1;
        assert here[1..] == format[i..];
      }
      parameterSize := parameterSize + size;
      if parameterSize > PD_MAX {
        return false;
      }
    }
    if terminated {
      if i < |format| && format[i] != '$' {
        return false;
      }
    } else {
      parameterSize := 231 - 231 % parameterSize;
    }
    return parameterSize > 0;
  }
}
