/**
 The digests that records, downloads and Git ids are spelled with: exactly what a hash function's `hexdigest` can
 return.
 */
module Digests {
  import opened Common
  import GitObjects
  import Json
  import Fetch

  lemma SameDigits(c: char)
    ensures Json.IsHexDigit(c) <==> GitObjects.IsLowerHex(c)
  {
  }

  /** A text of so many hexadecimal digits is the spelling of half as many bytes, and of no others. */
  lemma HexTextExactly(s: string, n: nat)
    ensures Json.IsHexText(s, 2 * n) <==> exists b: Bytes :: |b| == n && GitObjects.ToHex(b) == s
  {
    if Json.IsHexText(s, 2 * n) {
      forall i | 0 <= i < |s| ensures GitObjects.IsLowerHex(s[i]) { SameDigits(s[i]); }
      GitObjects.HexOfFromHex(s);
      assert |GitObjects.ToHex(GitObjects.FromHex(s).value)| == 2 * n;
    }
    forall b: Bytes | GitObjects.ToHex(b) == s ensures GitObjects.IsHex(s) { GitObjects.HexIsHex(b); }
    hide GitObjects.ToHex, GitObjects.FromHex;
    if b: Bytes :| |b| == n && GitObjects.ToHex(b) == s {
      forall i | 0 <= i < |s| ensures Json.IsHexDigit(s[i]) { SameDigits(s[i]); }
    }
  }

  /** `fetch_exact` and the parser of records accept the same digests, those of 32 bytes. */
  lemma Sha256Exactly(s: string)
    ensures Fetch.IsSha256(s) <==> Json.IsHexText(s, 64)
    ensures Fetch.IsSha256(s) <==> exists b: Bytes :: |b| == 32 && GitObjects.ToHex(b) == s
    ensures Json.ExactHex(Json.Str(s), 64).Some? <==> Fetch.IsSha256(s)
  {
    HexTextExactly(s, 32);
    assert Json.IsHexText(s, 64) <==> Fetch.IsSha256(s) by {
      if Json.IsHexText(s, 64) {
        forall i | 0 <= i < |s| ensures '0' <= s[i] <= '9' || 'a' <= s[i] <= 'f' { SameDigits(s[i]); }
      }
    }
    hide GitObjects.ToHex;
  }
}
