/**
 * Header escaping, the `write_escaped` table nested in `StompFrame::serialize`:
 * carriage return, line feed, colon and backslash become a backslash followed
 * by `r`, `n`, `c` and `\` respectively; every other byte is copied.
 */
module Escaping {
  import opened Bytes
  import opened Wrappers

  /** The bytes that header escaping replaces. */
  predicate IsReserved(b: byte)
  {
    b == CR || b == LF || b == COLON || b == BACKSLASH
  }

  /** The escape table: what `write_escaped` appends for one byte. */
  function EscapeByte(b: byte): seq<byte>
  {
    if b == CR then [BACKSLASH, LOWER_R]
    else if b == LF then [BACKSLASH, LOWER_N]
    else if b == COLON then [BACKSLASH, LOWER_C]
    else if b == BACKSLASH then [BACKSLASH, BACKSLASH]
    else [b]
  }

  /** The escaped form of a byte string: each byte's table entry, in order. */
  function Escape(s: seq<byte>): seq<byte>
  {
    if s == [] then [] else EscapeByte(s[0]) + Escape(s[1..])
  }

  /** The number of reserved bytes in `s`. */
  function ReservedCount(s: seq<byte>): nat
  {
    if s == [] then 0 else (if IsReserved(s[0]) then 1 else 0) + ReservedCount(s[1..])
  }

  /** The byte an escape code after a backslash stands for, if it is one of the four. */
  function DecodeEscapeCode(code: byte): Option<byte>
  {
    if code == LOWER_R then Some(CR)
    else if code == LOWER_N then Some(LF)
    else if code == LOWER_C then Some(COLON)
    else if code == BACKSLASH then Some(BACKSLASH)
    else None
  }

  /**
   * Well-escaped text: a sequence of tokens, each either one byte that is not
   * reserved or a backslash followed by one of `r`, `n`, `c`, `\`.
   */
  predicate WellEscaped(t: seq<byte>)
    decreases |t|
  {
    if t == [] then true
    else if t[0] == BACKSLASH then
      |t| >= 2 && DecodeEscapeCode(t[1]).Some? && WellEscaped(t[2..])
    else !IsReserved(t[0]) && WellEscaped(t[1..])
  }

  /**
   * Specification-only inverse of `Escape` (the source has no decoder): it
   * undoes the table on well-escaped text and fails on anything else.
   */
  ghost function Unescape(t: seq<byte>): Option<seq<byte>>
    decreases |t|
  {
    if t == [] then Some([])
    else if t[0] == BACKSLASH then
      if |t| < 2 || DecodeEscapeCode(t[1]).None? then None
      else match Unescape(t[2..])
        case None => None
        case Some(rest) => Some([DecodeEscapeCode(t[1]).value] + rest)
    else if IsReserved(t[0]) then None
    else match Unescape(t[1..])
      case None => None
      case Some(rest) => Some([t[0]] + rest)
  }

  /** The table: reserved bytes become two bytes, a backslash and their code; others are copied. */
  lemma EscapeByteTable(b: byte)
    ensures IsReserved(b) ==> |EscapeByte(b)| == 2 && EscapeByte(b)[0] == BACKSLASH
                              && DecodeEscapeCode(EscapeByte(b)[1]) == Some(b)
    ensures !IsReserved(b) ==> EscapeByte(b) == [b]
  {
  }

  /** Escaping distributes over concatenation, so it can be done one byte at a time. */
  lemma {:induction false} EscapeAppend(a: seq<byte>, b: seq<byte>)
    ensures Escape(a + b) == Escape(a) + Escape(b)
  {
    if a == [] {
      assert a + b == b;
    } else {
      assert (a + b)[0] == a[0];
      assert (a + b)[1..] == a[1..] + b;
      EscapeAppend(a[1..], b);
    }
  }

  /** Escaping one more byte appends that byte's table entry. */
  lemma EscapeSnoc(s: seq<byte>, b: byte)
    ensures Escape(s + [b]) == Escape(s) + EscapeByte(b)
  {
    EscapeAppend(s, [b]);
    assert Escape([b]) == EscapeByte(b) + Escape([]);
  }

  /** The escaped form grows by one byte per reserved byte. */
  lemma {:induction false} EscapeLength(s: seq<byte>)
    ensures |Escape(s)| == |s| + ReservedCount(s)
  {
    if s != [] {
      EscapeLength(s[1..]);
    }
  }

  /** Escaped text never holds a raw colon, line feed or carriage return. */
  lemma {:induction false} EscapeHasNoSeparators(s: seq<byte>)
    ensures COLON !in Escape(s) && LF !in Escape(s) && CR !in Escape(s)
  {
    if s != [] {
      EscapeHasNoSeparators(s[1..]);
      assert Escape(s) == EscapeByte(s[0]) + Escape(s[1..]);
    }
  }

  /** Escaped text is well escaped: every backslash starts one of the four escape sequences. */
  lemma {:induction false} EscapeIsWellEscaped(s: seq<byte>)
    ensures WellEscaped(Escape(s))
  {
    if s != [] {
      EscapeIsWellEscaped(s[1..]);
      var t := Escape(s);
      assert t == EscapeByte(s[0]) + Escape(s[1..]);
      if IsReserved(s[0]) {
        assert t[2..] == Escape(s[1..]);
      } else {
        assert t[1..] == Escape(s[1..]);
      }
    }
  }

  /** `Unescape` is a left inverse of `Escape`. */
  lemma {:induction false} UnescapeEscape(s: seq<byte>)
    ensures Unescape(Escape(s)) == Some(s)
  {
    if s != [] {
      UnescapeEscape(s[1..]);
      var t := Escape(s);
      assert t == EscapeByte(s[0]) + Escape(s[1..]);
      if IsReserved(s[0]) {
        assert t[2..] == Escape(s[1..]);
      } else {
        assert t[1..] == Escape(s[1..]);
      }
      assert [s[0]] + s[1..] == s;
    }
  }

  /** Whatever `Unescape` accepts is the escaped form of what it returns. */
  lemma {:induction false} EscapeUnescape(t: seq<byte>, s: seq<byte>)
    requires Unescape(t) == Some(s)
    ensures Escape(s) == t
    decreases |t|
  {
    if t != [] {
      if t[0] == BACKSLASH {
        var rest := Unescape(t[2..]).value;
        EscapeUnescape(t[2..], rest);
        assert s == [DecodeEscapeCode(t[1]).value] + rest;
        assert s[1..] == rest;
        assert t == t[..2] + t[2..];
      } else {
        var rest := Unescape(t[1..]).value;
        EscapeUnescape(t[1..], rest);
        assert s == [t[0]] + rest;
        assert s[1..] == rest;
        assert t == [t[0]] + t[1..];
      }
    }
  }

  /** The well-escaped texts are exactly the ones `Unescape` accepts. */
  lemma {:induction false} WellEscapedIffUnescapes(t: seq<byte>)
    ensures WellEscaped(t) <==> Unescape(t).Some?
    decreases |t|
  {
    if t != [] {
      if t[0] == BACKSLASH {
        if |t| >= 2 {
          WellEscapedIffUnescapes(t[2..]);
        }
      } else {
        WellEscapedIffUnescapes(t[1..]);
      }
    }
  }

  /** A byte string is the escaped form of some byte string exactly when it is well escaped. */
  lemma EscapeImage(t: seq<byte>)
    ensures WellEscaped(t) <==> exists s :: Escape(s) == t
  {
    WellEscapedIffUnescapes(t);
    if WellEscaped(t) {
      EscapeUnescape(t, Unescape(t).value);
    }
    if s :| Escape(s) == t {
      EscapeIsWellEscaped(s);
    }
  }

  /** Escaping is injective. */
  lemma EscapeInjective(a: seq<byte>, b: seq<byte>)
    requires Escape(a) == Escape(b)
    ensures a == b
  {
    UnescapeEscape(a);
    UnescapeEscape(b);
  }

  /** Text holding none of the four reserved bytes. */
  predicate Plain(s: seq<byte>)
  {
    CR !in s && LF !in s && COLON !in s && BACKSLASH !in s
  }

  /** Text without reserved bytes is its own escaped form. */
  lemma {:induction false} EscapePlain(s: seq<byte>)
    requires Plain(s)
    ensures Escape(s) == s
  {
    if s != [] {
      EscapePlain(s[1..]);
      assert s == [s[0]] + s[1..];
    }
  }
}
