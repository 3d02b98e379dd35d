/**
 `crlf_to_lf`: the line ends of a first-use screen, at render only.

 The renderer works on UTF-8 bytes. The same substitution on text is the reference.
 */
module Crlf {
  import opened Common
  import Utf8

  /** One left-to-right pass over non-overlapping matches of `cr lf`. */
  function Normalize<T(==)>(s: seq<T>, cr: T, lf: T): seq<T> {
    if s == [] then []
    else if |s| >= 2 && s[0] == cr && s[1] == lf then [lf] + Normalize(s[2..], cr, lf)
    else [s[0]] + Normalize(s[1..], cr, lf)
  }

  const CR: Byte := 13
  const LF: Byte := 10

  function CrlfToLf(payload: Bytes): Bytes {
    Normalize(payload, CR, LF)
  }

  function CrlfToLfText(text: string): string {
    Normalize(text, '\r', '\n')
  }

  /** A character that is not CR starts with no CR byte, so no match begins inside or across it. */
  lemma {:induction false} PassesOver(front: Bytes, rest: Bytes)
    requires CR !in front
    ensures CrlfToLf(front + rest) == front + CrlfToLf(rest)
  {
    if front == [] {
      assert front + rest == rest;
    } else {
      PassesOver(front[1..], rest);
      assert (front + rest)[1..] == front[1..] + rest;
    }
  }

  /** Working on bytes is no approximation: it is the substitution on the decoded text. */
  lemma {:induction false} BytesAgreeWithText(s: string)
    ensures CrlfToLf(Utf8.Encode(s)) == Utf8.Encode(CrlfToLfText(s))
    decreases |s|
  {
    if s == [] {
    } else if |s| >= 2 && s[0] == '\r' && s[1] == '\n' {
      BytesAgreeWithText(s[2..]);
      assert s[1..][1..] == s[2..];
      var b := Utf8.Encode(s);
      assert Utf8.EncodeChar('\r') == [CR] && Utf8.EncodeChar('\n') == [LF];
      assert Utf8.Encode(s[1..]) == [LF] + Utf8.Encode(s[2..]);
      assert b == [CR] + ([LF] + Utf8.Encode(s[2..]));
      assert b[2..] == Utf8.Encode(s[2..]);
      assert CrlfToLfText(s)[1..] == CrlfToLfText(s[2..]);
    } else {
      BytesAgreeWithText(s[1..]);
      assert CrlfToLfText(s)[1..] == CrlfToLfText(s[1..]);
      if s[0] == '\r' {
        var b := Utf8.Encode(s);
        assert b == [CR] + Utf8.Encode(s[1..]) && b[1..] == Utf8.Encode(s[1..]);
        assert |s| >= 2 ==> Utf8.Encode(s[1..])[0] != LF by {
          if |s| >= 2 { FirstByte(s[1..]); }
        }
      } else {
        assert CR !in Utf8.EncodeChar(s[0]);
        PassesOver(Utf8.EncodeChar(s[0]), Utf8.Encode(s[1..]));
      }
    }
  }

  lemma FirstByte(s: string)
    requires s != [] && s[0] != '\n'
    ensures Utf8.Encode(s) != [] && Utf8.Encode(s)[0] != LF
  {
  }

  /** The number of CR LF pairs. */
  function Pairs<T(==)>(s: seq<T>, cr: T, lf: T): nat {
    if |s| < 2 then 0
    else (if s[0] == cr && s[1] == lf then 1 else 0) + Pairs(s[1..], cr, lf)
  }

  lemma {:induction false} LengthLosesPairs<T>(s: seq<T>, cr: T, lf: T)
    requires cr != lf
    ensures |Normalize(s, cr, lf)| == |s| - Pairs(s, cr, lf)
    decreases |s|
  {
    if |s| >= 2 && s[0] == cr && s[1] == lf {
      LengthLosesPairs(s[2..], cr, lf);
      assert s[1..][1..] == s[2..];
    } else if s != [] {
      LengthLosesPairs(s[1..], cr, lf);
    }
  }

  ghost predicate HasBareCr<T>(s: seq<T>, cr: T, lf: T) {
    exists i :: 0 <= i < |s| && s[i] == cr && (i + 1 < |s| ==> s[i + 1] != lf)
  }

  /** A bare CR is kept, and nothing else leaves a CR on the screen. */
  lemma {:induction false} CrSurvivesExactlyWhenBare<T>(s: seq<T>, cr: T, lf: T)
    requires cr != lf
    ensures cr in Normalize(s, cr, lf) <==> HasBareCr(s, cr, lf)
    decreases |s|
  {
    if s != [] {
      var n := if |s| >= 2 && s[0] == cr && s[1] == lf then 2 else 1;
      CrSurvivesExactlyWhenBare(s[n..], cr, lf);
      if HasBareCr(s[n..], cr, lf) {
        var i :| 0 <= i < |s[n..]| && s[n..][i] == cr && (i + 1 < |s[n..]| ==> s[n..][i + 1] != lf);
        assert s[i + n] == cr && (i + n + 1 < |s| ==> s[i + n + 1] != lf);
      }
      if HasBareCr(s, cr, lf) {
        var i :| 0 <= i < |s| && s[i] == cr && (i + 1 < |s| ==> s[i + 1] != lf);
        if i >= n {
          assert s[n..][i - n] == cr && (i - n + 1 < |s[n..]| ==> s[n..][i - n + 1] != lf);
        }
      }
    }
  }

  function Without<T(==)>(s: seq<T>, x: T): seq<T> {
    if s == [] then [] else (if s[0] == x then [] else [s[0]]) + Without(s[1..], x)
  }

  /** A line ending changes; not a word. */
  lemma {:induction false} OnlyCrsGo<T>(s: seq<T>, cr: T, lf: T)
    requires cr != lf
    ensures Without(Normalize(s, cr, lf), cr) == Without(s, cr)
    decreases |s|
  {
    if |s| >= 2 && s[0] == cr && s[1] == lf {
      OnlyCrsGo(s[2..], cr, lf);
      assert s[1..][1..] == s[2..];
      assert Normalize(s, cr, lf)[1..] == Normalize(s[2..], cr, lf);
    } else if s != [] {
      OnlyCrsGo(s[1..], cr, lf);
      assert Normalize(s, cr, lf)[1..] == Normalize(s[1..], cr, lf);
    }
  }
}
