/**
 NUL-terminated byte strings as the queue stores them, the C library's
 `strcmp` ordering on them, and what a reader of a NUL-terminated buffer sees.
 A string value is modelled by its contents, the bytes before the terminator,
 so a stored string never contains NUL.
 */
module CStrings {

  /** One `unsigned char`: `strcmp` compares bytes as unsigned values. */
  newtype byte = b: int | 0 <= b < 256

  const NUL: byte := 0

  predicate NulFree(s: seq<byte>) {
    forall i | 0 <= i < |s| :: s[i] != NUL
  }

  /** The contents of a C string: everything before its terminating NUL. */
  type CStr = s: seq<byte> | NulFree(s) witness []

  /** The byte `strcmp` reads at position i of a terminated string: the terminator once past the end. */
  function ByteAt(s: CStr, i: nat): (c: byte)
    ensures c == NUL <==> i >= |s|
  {
    if i < |s| then s[i] else NUL
  }

  /**
   `strcmp`: walk both strings while their bytes agree and are not the
   terminator; the result is the difference of the first bytes that differ,
   so only its sign is meaningful to callers. The terminator is smaller than
   every other byte, which makes a proper prefix compare below the longer string.
   */
  function StrCmp(a: CStr, b: CStr): (r: int)
    ensures r == 0 <==> a == b
    decreases |a|
  {
    var ca := ByteAt(a, 0);
    var cb := ByteAt(b, 0);
    if ca != cb then ca as int - cb as int
    else if ca == NUL then 0
    else
      var r := StrCmp(a[1..], b[1..]);
      assert a == [a[0]] + a[1..] && b == [b[0]] + b[1..];
      r
  }

  /** `a` is no greater than `b` in `strcmp` order. */
  predicate StrLe(a: CStr, b: CStr) {
    StrCmp(a, b) <= 0
  }

  /**
   The textbook lexicographic order, as an independent reference for
   `StrCmp`: `a` is a proper prefix of `b`, or the first position where they
   differ holds a smaller byte in `a`.
   */
  predicate LexLess(a: seq<byte>, b: seq<byte>) {
    || (|a| < |b| && a == b[..|a|])
    || exists k :: 0 <= k < |a| && k < |b| && a[..k] == b[..k] && a[k] < b[k]
  }

  /** A lexicographic order decided after a common first byte is decided by the tails. */
  lemma LexLessFromTail(a: seq<byte>, b: seq<byte>)
    requires |a| > 0 && |b| > 0 && a[0] == b[0]
    requires LexLess(a, b)
    ensures LexLess(a[1..], b[1..])
  {
    var a', b' := a[1..], b[1..];
    if |a| < |b| && a == b[..|a|] {
      assert a' == b'[..|a'|];
    } else {
      var k :| 0 <= k < |a| && k < |b| && a[..k] == b[..k] && a[k] < b[k];
      assert k != 0;
      assert a'[..k - 1] == a[1..k] == b[1..k] == b'[..k - 1];
      assert a'[k - 1] < b'[k - 1];
    }
  }

  /** Prefixing a common first byte keeps the lexicographic order of the tails. */
  lemma LexLessToTail(a: seq<byte>, b: seq<byte>)
    requires |a| > 0 && |b| > 0 && a[0] == b[0]
    requires LexLess(a[1..], b[1..])
    ensures LexLess(a, b)
  {
    var a', b' := a[1..], b[1..];
    if |a'| < |b'| && a' == b'[..|a'|] {
      assert a == [a[0]] + a' && b[..|a|] == [b[0]] + b'[..|a'|];
    } else {
      var k :| 0 <= k < |a'| && k < |b'| && a'[..k] == b'[..k] && a'[k] < b'[k];
      assert a[..k + 1] == [a[0]] + a'[..k] && b[..k + 1] == [b[0]] + b'[..k];
      assert a[k + 1] < b[k + 1];
    }
  }

  /** A negative `strcmp` result means exactly "lexicographically smaller". */
  lemma {:induction false} StrCmpIsLexLess(a: CStr, b: CStr)
    ensures StrCmp(a, b) < 0 <==> LexLess(a, b)
    decreases |a|
  {
    if |a| == 0 || |b| == 0 {
      if |a| == 0 && |b| > 0 {
        assert a == b[..0];
      }
    } else if a[0] != b[0] {
      if a[0] < b[0] {
        assert a[..0] == b[..0];
      } else {
      }
    } else {
      StrCmpIsLexLess(a[1..], b[1..]);
      if LexLess(a, b) {
        LexLessFromTail(a, b);
      }
      if LexLess(a[1..], b[1..]) {
        LexLessToTail(a, b);
      }
    }
  }

  /** Swapping the operands of `strcmp` negates the result. */
  lemma {:induction false} StrCmpFlip(a: CStr, b: CStr)
    ensures StrCmp(a, b) == -StrCmp(b, a)
    decreases |a|
  {
    if |a| > 0 && |b| > 0 && a[0] == b[0] {
      StrCmpFlip(a[1..], b[1..]);
    }
  }

  /** `strcmp` order is transitive. */
  lemma {:induction false} StrLeTrans(a: CStr, b: CStr, c: CStr)
    requires StrLe(a, b) && StrLe(b, c)
    ensures StrLe(a, c)
    decreases |a|
  {
    var ca, cb, cc := ByteAt(a, 0), ByteAt(b, 0), ByteAt(c, 0);
    if ca == cb && cb == cc && ca != NUL {
      StrLeTrans(a[1..], b[1..], c[1..]);
    } else if ca == cb && ca == NUL {
      assert a == b;
    }
  }

  /** `strcmp` order is total: of two strings, one is no greater than the other. */
  lemma StrLeTotal(a: CStr, b: CStr)
    ensures StrLe(a, b) || StrLe(b, a)
  {
    StrCmpFlip(a, b);
  }

  /** Two strings each no greater than the other are the same string. */
  lemma StrLeAntisymmetric(a: CStr, b: CStr)
    requires StrLe(a, b) && StrLe(b, a)
    ensures a == b
  {
    StrCmpFlip(a, b);
  }

  /**
   What a reader of a NUL-terminated buffer sees: the bytes before the first
   NUL (all of them when the buffer holds none).
   */
  function ReadCStr(buf: seq<byte>): (s: CStr)
    ensures |s| <= |buf| && s == buf[..|s|]
    ensures |s| < |buf| ==> buf[|s|] == NUL
  {
    if |buf| == 0 || buf[0] == NUL then []
    else [buf[0]] + ReadCStr(buf[1..])
  }

  /** A string followed by a terminator reads back as itself, whatever follows the terminator. */
  lemma {:induction false} ReadTerminated(s: CStr, rest: seq<byte>)
    ensures ReadCStr(s + [NUL] + rest) == s
  {
    if |s| > 0 {
      assert (s + [NUL] + rest)[1..] == s[1..] + [NUL] + rest;
      ReadTerminated(s[1..], rest);
    }
  }
}
