/**
 Git objects as the vendoring tool writes and reads them (Pro Git, section 10.2, "Git Objects"):
 object framing, binary trees, and the tool's own hexadecimal ids.
 */
module GitObjects {
  import opened Common
  import Utf8

  const SPACE: Byte := 0x20
  const NUL: Byte := 0

  // ---------------------------------------------------------------------------------------
  // Hexadecimal

  function HexDigit(n: nat): char
    requires n < 16
  {
    if n < 10 then (48 + n) as char else (87 + n) as char
  }

  /** Either case is accepted. */
  function HexValue(c: char): (r: Option<nat>)
    ensures r.Some? ==> r.value < 16
  {
    if '0' <= c <= '9' then Some(c as int - 48)
    else if 'a' <= c <= 'f' then Some(c as int - 87)
    else if 'A' <= c <= 'F' then Some(c as int - 55)
    else None
  }

  predicate IsAsciiSpace(c: char) {
    c == ' ' || 9 <= c as int <= 13
  }

  /** `bytes.hex`. */
  function ToHex(b: Bytes): (s: string)
    ensures |s| == 2 * |b|
  {
    if b == [] then "" else [HexDigit(b[0] as int / 16), HexDigit(b[0] as int % 16)] + ToHex(b[1..])
  }

  /** `bytes.fromhex`: white space between bytes is skipped. */
  function FromHex(s: string): Option<Bytes>
    decreases |s|
  {
    if s == "" then Some([])
    else if IsAsciiSpace(s[0]) then FromHex(s[1..])
    else if |s| < 2 || HexValue(s[0]).None? || HexValue(s[1]).None? then None
    else match FromHex(s[2..])
      case None => None
      case Some(rest) => Some([(16 * HexValue(s[0]).value + HexValue(s[1]).value) as Byte] + rest)
  }

  predicate IsLowerHex(c: char) {
    '0' <= c <= '9' || 'a' <= c <= 'f'
  }

  /** What `bytes.hex` can return. */
  predicate IsHex(s: string) {
    |s| % 2 == 0 && forall i | 0 <= i < |s| :: IsLowerHex(s[i])
  }

  const LOWER: string := "0123456789abcdef"
  const UPPER: string := "0123456789ABCDEF"
  const BLANKS: set<char> := {' ', '\t', '\n', '\U{0B}', '\U{0C}', '\r'}

  /** The text spells the bytes: two digits for each, of either case, and blanks anywhere but between these. */
  predicate Spells(s: string, b: Bytes)
    decreases |s|
  {
    if s == "" then b == []
    else if s[0] in BLANKS then Spells(s[1..], b)
    else
      |s| >= 2 && b != [] && SpellsOne(s[0], s[1], b[0]) && Spells(s[2..], b[1..])
  }

  lemma DigitsMean(c: char, v: nat)
    requires v < 16
    ensures HexValue(c) == Some(v) <==> c == LOWER[v] || c == UPPER[v]
    ensures HexValue(c) == Some(v) ==> c !in BLANKS
    ensures IsAsciiSpace(c) <==> c in BLANKS
  {
  }

  predicate SpellsOne(hi: char, lo: char, b: Byte) {
    hi in {LOWER[b / 16], UPPER[b / 16]} && lo in {LOWER[b % 16], UPPER[b % 16]}
  }

  lemma PairMeans(hi: char, lo: char, b: Byte)
    ensures HexValue(hi).Some? && HexValue(lo).Some? && (16 * HexValue(hi).value + HexValue(lo).value) as Byte == b
            <==> SpellsOne(hi, lo, b)
  {
    hide HexValue, LOWER, UPPER;
    var h, l := b as int / 16, b as int % 16;
    DigitsMean(hi, h);
    DigitsMean(lo, l);
    assert SpellsOne(hi, lo, b) <==> HexValue(hi) == Some(h) && HexValue(lo) == Some(l);
    hide SpellsOne;
  }

  /** `bytes.fromhex` reads exactly the texts that spell bytes, as those bytes. */
  lemma {:induction false} FromHexReadsSpelled(s: string, b: Bytes)
    ensures FromHex(s) == Some(b) <==> Spells(s, b)
    decreases |s|
  {
    hide HexValue, IsAsciiSpace, BLANKS, SpellsOne;
    if s != "" {
      DigitsMean(s[0], 0);
      if IsAsciiSpace(s[0]) {
        FromHexReadsSpelled(s[1..], b);
      } else if |s| >= 2 && b != [] {
        PairMeans(s[0], s[1], b[0]);
        FromHexReadsSpelled(s[2..], b[1..]);
        assert b == [b[0]] + b[1..];
      }
    }
  }

  lemma HexValueOfDigit(n: nat)
    requires n < 16
    ensures HexValue(HexDigit(n)) == Some(n)
    ensures IsLowerHex(HexDigit(n)) && !IsAsciiSpace(HexDigit(n))
  {
  }

  lemma FromHexCons(hi: char, lo: char, rest: string)
    requires HexValue(hi).Some? && HexValue(lo).Some? && FromHex(rest).Some? && !IsAsciiSpace(hi)
    ensures FromHex([hi, lo] + rest)
         == Some([(16 * HexValue(hi).value + HexValue(lo).value) as Byte] + FromHex(rest).value)
  {
  }

  lemma {:induction false} FromHexOfHex(b: Bytes)
    ensures FromHex(ToHex(b)) == Some(b)
  {
    if b != [] {
      var hi, lo := b[0] as int / 16, b[0] as int % 16;
      FromHexOfHex(b[1..]);
      HexValueOfDigit(hi);
      HexValueOfDigit(lo);
      FromHexCons(HexDigit(hi), HexDigit(lo), ToHex(b[1..]));
      assert ToHex(b) == [HexDigit(hi), HexDigit(lo)] + ToHex(b[1..]);
      hide HexValue, HexDigit, IsAsciiSpace, FromHex, ToHex;
      assert (16 * hi + lo) as Byte == b[0];
      assert b == [b[0]] + b[1..];
    }
  }

  lemma {:induction false} HexIsHex(b: Bytes)
    ensures IsHex(ToHex(b))
  {
    if b != [] {
      HexIsHex(b[1..]);
      HexValueOfDigit(b[0] as int / 16);
      HexValueOfDigit(b[0] as int % 16);
      var s := ToHex(b);
      forall i | 0 <= i < |s| ensures IsLowerHex(s[i]) {
        if i >= 2 { assert s[i] == ToHex(b[1..])[i - 2]; }
      }
    }
  }

  lemma DigitOfHexValue(c: char)
    requires IsLowerHex(c)
    ensures HexValue(c).Some? && HexDigit(HexValue(c).value) == c && !IsAsciiSpace(c)
  {
  }

  lemma {:induction false} HexOfFromHex(s: string)
    requires IsHex(s)
    ensures FromHex(s).Some? && ToHex(FromHex(s).value) == s
    decreases |s|
  {
    if s != "" {
      assert forall i | 0 <= i < |s[2..]| :: s[2..][i] == s[i + 2];
      HexOfFromHex(s[2..]);
      DigitOfHexValue(s[0]);
      DigitOfHexValue(s[1]);
      FromHexCons(s[0], s[1], s[2..]);
      hide HexValue, HexDigit, IsAsciiSpace, FromHex, IsLowerHex;
      assert s == [s[0], s[1]] + s[2..];
      var b := FromHex(s).value;
      assert b[0] as int / 16 == HexValue(s[0]).value && b[0] as int % 16 == HexValue(s[1]).value;
      assert b[1..] == FromHex(s[2..]).value;
    }
  }

  // ---------------------------------------------------------------------------------------
  // Searching and text

  function Find(b: Bytes, x: Byte): (r: Option<nat>)
    ensures r.Some? ==> r.value < |b| && b[r.value] == x
  {
    if b == [] then None
    else if b[0] == x then Some(0)
    else
      match Find(b[1..], x)
      case None => None
      case Some(k) => Some(k + 1)
  }

  lemma {:induction false} FindsFirst(b: Bytes, x: Byte)
    requires Find(b, x).Some?
    ensures x !in b[..Find(b, x).value]
  {
    if b[0] != x {
      FindsFirst(b[1..], x);
      var k := Find(b[1..], x).value;
      assert b[..k + 1] == [b[0]] + b[1..][..k];
    }
  }

  lemma {:induction false} FindAfter(front: Bytes, x: Byte, rest: Bytes)
    requires x !in front
    ensures Find(front + [x] + rest, x) == Some(|front|)
  {
    var b := front + [x] + rest;
    if front == [] {
      assert b[0] == x;
    } else {
      FindAfter(front[1..], x, rest);
      assert b[1..] == front[1..] + [x] + rest;
      assert b[0] == front[0];
    }
  }

  function Ascii(s: string): (r: Option<Bytes>) {
    if forall c | c in s :: c as int < 0x80 then
      Some(seq(|s|, i requires 0 <= i < |s| => if s[i] as int < 0x80 then s[i] as Byte else 0))
    else None
  }

  function FromAscii(b: Bytes): Option<string> {
    if forall x | x in b :: x < 0x80 then
      Some(seq(|b|, i requires 0 <= i < |b| => if b[i] < 0x80 then b[i] as char else ' '))
    else None
  }

  lemma AsciiOfFromAscii(b: Bytes)
    requires FromAscii(b).Some?
    ensures Ascii(FromAscii(b).value) == Some(b)
  {
    var s := FromAscii(b).value;
    forall i | 0 <= i < |s| ensures s[i] as int == b[i] as int { assert b[i] in b; }
    assert Ascii(s).value == b;
  }

  lemma FromAsciiOfAscii(s: string)
    requires Ascii(s).Some?
    ensures FromAscii(Ascii(s).value) == Some(s)
    ensures forall x: Byte | x < 0x80 :: x in Ascii(s).value <==> (x as char) in s
  {
    var b := Ascii(s).value;
    forall i | 0 <= i < |b| ensures b[i] as int == s[i] as int { assert s[i] in s; }
    assert FromAscii(b).value == s;
    forall x: Byte | x < 0x80 ensures x in b <==> (x as char) in s {
      if (x as char) in s {
        var i :| 0 <= i < |s| && s[i] == x as char;
        assert b[i] == x;
      }
    }
  }

  // ---------------------------------------------------------------------------------------
  // Trees

  datatype Entry = Entry(mode: string, name: string, oid: string)

  function EntryBytes(e: Entry): Option<Bytes> {
    match (Ascii(e.mode), FromHex(e.oid))
    case (Some(mode), Some(oid)) => Some(mode + [SPACE] + Utf8.Encode(e.name) + [NUL] + oid)
    case _ => None
  }

  function TreeBytes(entries: seq<Entry>): Option<Bytes> {
    if entries == [] then Some([])
    else match (EntryBytes(entries[0]), TreeBytes(entries[1..]))
      case (Some(first), Some(rest)) => Some(first + rest)
      case _ => None
  }

  /** Where the mode, the name and the id of the first entry end. */
  function Cut(raw: Bytes): (r: Option<(nat, nat, nat)>)
    ensures r.Some? ==> r.value.0 < r.value.1 < |raw| && r.value.1 < r.value.2 <= |raw|
    ensures r.Some? ==> raw[r.value.0] == SPACE && raw[r.value.1] == NUL
  {
    match Find(raw, SPACE)
    case None => None
    case Some(space) =>
      match Find(raw[space..], NUL)
      case None => None
      case Some(k) =>
        Some((space, space + k, if space + k + 21 <= |raw| then space + k + 21 else |raw|))
  }

  /** The first entry of a raw tree, and the index of the byte after it. */
  function ParseEntry(raw: Bytes): (r: Option<(Entry, nat)>)
    ensures r.Some? ==> 0 < r.value.1 <= |raw|
  {
    match Cut(raw)
    case None => None
    case Some((space, nul, end)) =>
      match (FromAscii(raw[..space]), Utf8.Decode(raw[space + 1..nul]))
      case (Some(mode), Some(name)) => Some((Entry(mode, name, ToHex(raw[nul + 1..end])), end))
      case _ => None
  }

  function ParseTree(raw: Bytes): Option<seq<Entry>>
    decreases |raw|
  {
    if raw == [] then Some([])
    else match ParseEntry(raw)
      case None => None
      case Some((e, n)) =>
        match ParseTree(raw[n..])
        case None => None
        case Some(rest) => Some([e] + rest)
  }

  /** The tool's loop over `index`. */
  method ParseTreeLoop(raw: Bytes) returns (r: Option<seq<Entry>>)
    ensures r == ParseTree(raw)
  {
    hide Find, FromAscii, Utf8.Decode, ParseEntry, Cut, ToHex, ParseTree;
    var entries: seq<Entry> := [];
    var index := 0;
    assert raw[0..] == raw;
    NothingParsesToNothing();
    PrependNothing(ParseTree(raw));
    while index < |raw|
      invariant 0 <= index <= |raw|
      invariant ParseTree(raw) == Prepend(entries, ParseTree(raw[index..]))
    {
      ghost var tail := raw[index..];
      var space := Find(raw[index..], SPACE);
      if space.None? {
        NoEnd(tail);
        return None;
      }
      var s := index + space.value;
      assert tail[space.value..] == raw[s..];
      var nul := Find(raw[s..], NUL);
      if nul.None? {
        NoEnd(tail);
        return None;
      }
      var n := s + nul.value;
      var end := if n + 21 <= |raw| then n + 21 else |raw|;
      LoopStep(raw, index, s, n, end);
      var mode := FromAscii(raw[index..s]);
      var name := Utf8.Decode(raw[s + 1..n]);
      if mode.None? || name.None? { return None; }
      var e := Entry(mode.value, name.value, ToHex(raw[n + 1..end]));
      PrependOne(entries, e, ParseTree(raw[end..]));
      entries := entries + [e];
      index := end;
    }
    assert raw[index..] == [] && entries + [] == entries;
    r := Some(entries);
  }

  lemma TailSlices(raw: Bytes, index: nat, s: nat, n: nat, end: nat)
    requires index <= s < n < end <= |raw| || index <= s < n < |raw| == end
    ensures raw[index..][s - index..] == raw[s..] && raw[index..][end - index..] == raw[end..]
    ensures raw[index..][..s - index] == raw[index..s]
    ensures raw[index..][s - index + 1..n - index] == raw[s + 1..n]
    ensures raw[index..][n - index + 1..end - index] == raw[n + 1..end]
  {
  }

  /** The loop's searches from `index` cut the rest of the tree where ParseEntry does. */
  lemma CutOfTail(raw: Bytes, index: nat, s: nat, n: nat, end: nat)
    requires index <= s <= n < |raw| && end == if n + 21 <= |raw| then n + 21 else |raw|
    requires Find(raw[index..], SPACE) == Some(s - index) && Find(raw[s..], NUL) == Some(n - s)
    ensures s < n && Cut(raw[index..]) == Some((s - index, n - index, end - index))
  {
  }

  /** So one round of the loop is one step of ParseTree. */
  lemma LoopStep(raw: Bytes, index: nat, s: nat, n: nat, end: nat)
    requires index <= s <= n < |raw| && end == if n + 21 <= |raw| then n + 21 else |raw|
    requires Find(raw[index..], SPACE) == Some(s - index) && Find(raw[s..], NUL) == Some(n - s)
    ensures s < n
    ensures var mode, name := FromAscii(raw[index..s]), Utf8.Decode(raw[s + 1..n]);
            if mode.None? || name.None? then ParseTree(raw[index..]).None?
            else
              var rest := ParseTree(raw[end..]);
              var e := Entry(mode.value, name.value, ToHex(raw[n + 1..end]));
              ParseTree(raw[index..]) == if rest.None? then None else Some([e] + rest.value)
  {
    hide *;
    CutOfTail(raw, index, s, n, end);
    TailSlices(raw, index, s, n, end);
    var tail := raw[index..];
    if FromAscii(raw[index..s]).Some? && Utf8.Decode(raw[s + 1..n]).Some? {
      ParseAt(tail, raw[index..s], raw[s + 1..n], raw[n + 1..end]);
      ParseTreeStep(tail);
    } else {
      NoEntry(tail);
    }
  }

  lemma ParseTreeStep(raw: Bytes)
    requires raw != [] && ParseEntry(raw).Some?
    ensures var (e, n) := ParseEntry(raw).value;
            ParseTree(raw) == if ParseTree(raw[n..]).None? then None else Some([e] + ParseTree(raw[n..]).value)
  {
  }

  lemma NoEntry(raw: Bytes)
    requires raw != [] && Cut(raw).Some?
    requires var (space, nul, end) := Cut(raw).value;
             FromAscii(raw[..space]).None? || Utf8.Decode(raw[space + 1..nul]).None?
    ensures ParseTree(raw).None?
  {
  }

  lemma NoEnd(raw: Bytes)
    requires raw != [] && (Find(raw, SPACE).None? || Find(raw[Find(raw, SPACE).value..], NUL).None?)
    ensures ParseTree(raw).None?
  {
    hide Find, ToHex, FromAscii, Utf8.Decode;
  }

  /** Entries already read, then the rest of the tree if it parses. */
  function Prepend(front: seq<Entry>, rest: Option<seq<Entry>>): Option<seq<Entry>> {
    if rest.None? then None else Some(front + rest.value)
  }

  lemma PrependNothing(rest: Option<seq<Entry>>)
    ensures Prepend([], rest) == rest
  {
    assert rest.Some? ==> [] + rest.value == rest.value;
  }

  lemma PrependOne(front: seq<Entry>, e: Entry, rest: Option<seq<Entry>>)
    ensures Prepend(front + [e], rest) == Prepend(front, if rest.None? then None else Some([e] + rest.value))
  {
    if rest.Some? {
      assert front + [e] + rest.value == front + ([e] + rest.value);
    }
  }

  predicate CanonicalEntry(e: Entry) {
    Ascii(e.mode).Some? && ' ' !in e.mode && '\0' !in e.name && IsHex(e.oid) && |e.oid| <= 40
  }

  /** Entries that a raw tree spells out: no space in a mode, no NUL in a name, 40-hex ids. Only the
      last id may be cut short, by the end of the tree. */
  predicate Canonical(entries: seq<Entry>) {
    && (forall i | 0 <= i < |entries| :: CanonicalEntry(entries[i]))
    && (forall i | 0 <= i < |entries| - 1 :: |entries[i].oid| == 40)
  }

  lemma CutPieces(mode: Bytes, name: Bytes, oid: Bytes, rest: Bytes)
    requires SPACE !in mode && NUL !in name
    requires |oid| == 20 || (|oid| < 20 && rest == [])
    ensures Cut(mode + [SPACE] + name + [NUL] + oid + rest)
         == Some((|mode|, |mode| + 1 + |name|, |mode| + 2 + |name| + |oid|))
  {
    var raw := mode + [SPACE] + name + [NUL] + oid + rest;
    FindAfter(mode, SPACE, name + [NUL] + oid + rest);
    assert raw == mode + [SPACE] + (name + [NUL] + oid + rest);
    FindAfter([SPACE] + name, NUL, oid + rest);
    assert raw[|mode|..] == [SPACE] + name + [NUL] + (oid + rest);
  }

  lemma Pieces(mode: Bytes, name: Bytes, oid: Bytes, rest: Bytes)
    ensures var raw := mode + [SPACE] + name + [NUL] + oid + rest;
            && raw[..|mode|] == mode
            && raw[|mode| + 1..|mode| + 1 + |name|] == name
            && raw[|mode| + 2 + |name|..|mode| + 2 + |name| + |oid|] == oid
  {
  }

  lemma ParsePieces(mode: Bytes, name: Bytes, oid: Bytes, rest: Bytes)
    requires SPACE !in mode && NUL !in name
    requires FromAscii(mode).Some? && Utf8.Decode(name).Some?
    requires |oid| == 20 || (|oid| < 20 && rest == [])
    ensures ParseEntry(mode + [SPACE] + name + [NUL] + oid + rest)
         == Some((Entry(FromAscii(mode).value, Utf8.Decode(name).value, ToHex(oid)), |mode| + 2 + |name| + |oid|))
  {
    hide *;
    CutPieces(mode, name, oid, rest);
    Pieces(mode, name, oid, rest);
    ParseAt(mode + [SPACE] + name + [NUL] + oid + rest, mode, name, oid);
  }

  lemma ParseAt(raw: Bytes, mode: Bytes, name: Bytes, oid: Bytes)
    requires Cut(raw).Some? && FromAscii(mode).Some? && Utf8.Decode(name).Some?
    requires raw[..Cut(raw).value.0] == mode
    requires raw[Cut(raw).value.0 + 1..Cut(raw).value.1] == name
    requires raw[Cut(raw).value.1 + 1..Cut(raw).value.2] == oid
    ensures ParseEntry(raw)
         == Some((Entry(FromAscii(mode).value, Utf8.Decode(name).value, ToHex(oid)), Cut(raw).value.2))
  {
  }

  lemma ParseEntryOfBytes(e: Entry, rest: Bytes)
    requires CanonicalEntry(e)
    requires |e.oid| == 40 || rest == []
    ensures EntryBytes(e).Some?
    ensures EntryBytes(e).value != []
    ensures ParseEntry(EntryBytes(e).value + rest) == Some((e, |EntryBytes(e).value|))
  {
    HexOfFromHex(e.oid);
    FromAsciiOfAscii(e.mode);
    Utf8.AsciiOnlyForItself(e.name, NUL);
    Utf8.DecodeEncode(e.name);
    var mode, name, oid := Ascii(e.mode).value, Utf8.Encode(e.name), FromHex(e.oid).value;
    assert |oid| == |e.oid| / 2;
    hide Ascii, FromAscii, Utf8.Encode, Utf8.Decode, ToHex, FromHex, ParseEntry;
    assert SPACE !in mode && NUL !in name;
    ParsePieces(mode, name, oid, rest);
  }

  lemma CutIsClean(raw: Bytes)
    requires Cut(raw).Some?
    ensures var (space, nul, end) := Cut(raw).value;
            && SPACE !in raw[..space] && NUL !in raw[space + 1..nul]
            && (end == nul + 21 || (end == |raw| && end < nul + 21))
  {
    var (space, nul, end) := Cut(raw).value;
    FindsFirst(raw, SPACE);
    FindsFirst(raw[space..], NUL);
    hide Find;
    forall i | space < i < nul ensures raw[i] != NUL {
      assert raw[i] == raw[space..][i - space] == raw[space..][..nul - space][i - space];
    }
  }

  lemma Rejoin(raw: Bytes, space: nat, nul: nat, end: nat)
    requires space < nul < end <= |raw| || space < nul < |raw| == end
    requires raw[space] == SPACE && raw[nul] == NUL
    ensures raw[..end] == raw[..space] + [SPACE] + raw[space + 1..nul] + [NUL] + raw[nul + 1..end]
  {
  }

  lemma BytesOfParseEntry(raw: Bytes)
    requires ParseEntry(raw).Some?
    ensures EntryBytes(ParseEntry(raw).value.0) == Some(raw[..ParseEntry(raw).value.1])
  {
    var e := ParseEntry(raw).value.0;
    var (space, nul, end) := Cut(raw).value;
    AsciiOfFromAscii(raw[..space]);
    Utf8.EncodeDecode(raw[space + 1..nul]);
    FromHexOfHex(raw[nul + 1..end]);
    Rejoin(raw, space, nul, end);
    hide Ascii, FromAscii, Utf8.Encode, Utf8.Decode, ToHex, FromHex, Cut;
  }

  lemma ParsedEntryIsCanonical(raw: Bytes)
    requires ParseEntry(raw).Some?
    ensures CanonicalEntry(ParseEntry(raw).value.0)
    ensures |ParseEntry(raw).value.0.oid| == 40 || ParseEntry(raw).value.1 == |raw|
  {
    hide Ascii, FromAscii, Utf8.Encode, Utf8.Decode, ToHex, FromHex, IsHex, Cut;
    CutIsClean(raw);
    var e := ParseEntry(raw).value.0;
    var (space, nul, end) := Cut(raw).value;
    AsciiOfFromAscii(raw[..space]);
    FromAsciiOfAscii(e.mode);
    Utf8.EncodeDecode(raw[space + 1..nul]);
    Utf8.AsciiOnlyForItself(e.name, NUL);
    HexIsHex(raw[nul + 1..end]);
  }

  lemma TreeBytesCons(e: Entry, rest: seq<Entry>)
    requires EntryBytes(e).Some? && TreeBytes(rest).Some?
    ensures TreeBytes([e] + rest) == Some(EntryBytes(e).value + TreeBytes(rest).value)
  {
  }

  lemma ParseTreeCons(raw: Bytes, n: nat)
    requires raw != [] && n <= |raw| && ParseEntry(raw).Some? && ParseEntry(raw).value.1 == n
    requires ParseTree(raw[n..]).Some?
    ensures ParseTree(raw) == Some([ParseEntry(raw).value.0] + ParseTree(raw[n..]).value)
  {
  }

  lemma CanonicalCons(e: Entry, rest: seq<Entry>)
    requires CanonicalEntry(e) && Canonical(rest)
    requires |e.oid| == 40 || rest == []
    ensures Canonical([e] + rest)
  {
  }

  lemma CanonicalTail(entries: seq<Entry>)
    requires Canonical(entries) && entries != []
    ensures CanonicalEntry(entries[0]) && Canonical(entries[1..])
    ensures |entries[0].oid| == 40 || entries[1..] == []
  {
  }

  /** The bytes of a parsed tree are the tree, and what was parsed is canonical. */
  lemma {:induction false} PrintParse(raw: Bytes)
    requires ParseTree(raw).Some?
    ensures TreeBytes(ParseTree(raw).value) == Some(raw)
    ensures Canonical(ParseTree(raw).value)
    decreases |raw|
  {
    hide *;
    NothingParsesToNothing();
    if raw != [] {
      ParseTreeParts(raw);
      var (e, n) := ParseEntry(raw).value;
      BytesOfParseEntry(raw);
      ParsedEntryIsCanonical(raw);
      PrintParse(raw[n..]);
      var rest := ParseTree(raw[n..]).value;
      TreeBytesCons(e, rest);
      CanonicalCons(e, rest);
      assert raw == raw[..n] + raw[n..];
    }
  }

  lemma ParseTreeParts(raw: Bytes)
    requires raw != [] && ParseTree(raw).Some?
    ensures ParseEntry(raw).Some? && ParseTree(raw[ParseEntry(raw).value.1..]).Some?
    ensures var (e, n) := ParseEntry(raw).value; ParseTree(raw) == Some([e] + ParseTree(raw[n..]).value)
  {
    hide ParseEntry;
  }

  lemma NothingParsesToNothing()
    ensures ParseTree([]) == Some([]) && TreeBytes([]) == Some([]) && Canonical([])
  {
  }

  lemma {:induction false} ParsePrintCanonical(entries: seq<Entry>)
    requires Canonical(entries)
    ensures TreeBytes(entries).Some?
    ensures ParseTree(TreeBytes(entries).value) == Some(entries)
  {
    if entries != [] {
      CanonicalTail(entries);
      ParsePrintCanonical(entries[1..]);
      var rest := TreeBytes(entries[1..]).value;
      ParseEntryOfBytes(entries[0], if entries[1..] == [] then [] else rest);
      var first := EntryBytes(entries[0]).value;
      TreeBytesCons(entries[0], entries[1..]);
      assert entries[1..] == [] ==> rest == [];
      hide ParseEntry, EntryBytes, CanonicalEntry, Canonical, ParseTree, TreeBytes;
      assert entries == [entries[0]] + entries[1..];
      assert (first + rest)[|first|..] == rest;
      ParseTreeCons(first + rest, |first|);
    }
  }

  /** Entries survive printing and parsing exactly when they are canonical. */
  lemma ParsePrintExactlyCanonical(entries: seq<Entry>)
    ensures (TreeBytes(entries).Some? && ParseTree(TreeBytes(entries).value) == Some(entries))
            <==> Canonical(entries)
  {
    if Canonical(entries) {
      ParsePrintCanonical(entries);
    } else if TreeBytes(entries).Some? && ParseTree(TreeBytes(entries).value) == Some(entries) {
      PrintParse(TreeBytes(entries).value);
    }
  }

  // ---------------------------------------------------------------------------------------
  // Object framing

  function Decimal(n: nat): (d: Bytes)
    ensures forall x | x in d :: 48 <= x < 58
  {
    if n < 10 then [(48 + n) as Byte] else Decimal(n / 10) + [(48 + n % 10) as Byte]
  }

  /** Digits read from the left, in base ten. */
  function DecimalValue(d: Bytes): nat {
    if d == [] then 0 else 10 * DecimalValue(d[..|d| - 1]) + Digit(d[|d| - 1])
  }

  function Digit(b: Byte): nat {
    if 48 <= b < 58 then b as int - 48 else 0
  }

  predicate IsDecimal(d: Bytes) {
    d != [] && (forall x | x in d :: 48 <= x < 58) && (d[0] == 48 ==> |d| == 1)
  }

  /** The number is read back, and has no leading zero. */
  lemma {:induction false} DecimalReadsBack(n: nat)
    ensures IsDecimal(Decimal(n)) && DecimalValue(Decimal(n)) == n
    ensures n > 0 ==> Decimal(n)[0] != 48
  {
    if n >= 10 {
      DecimalReadsBack(n / 10);
      var front, last := Decimal(n / 10), (48 + n % 10) as Byte;
      assert (front + [last])[..|front|] == front;
    } else {
      assert Decimal(n)[..0] == [];
    }
  }

  lemma DecimalSnoc(n: nat, last: Byte)
    requires 48 <= last < 58
    ensures n > 0 ==> Decimal(10 * n + Digit(last)) == Decimal(n) + [last]
    ensures Decimal(Digit(last)) == [last]
  {
    var m := 10 * n + Digit(last);
    assert m / 10 == n && m % 10 == Digit(last) && (48 + Digit(last)) as Byte == last;
  }

  /** So the digits of a number are the only ones that read as it. */
  lemma {:induction false} OneDecimal(d: Bytes)
    requires IsDecimal(d)
    ensures Decimal(DecimalValue(d)) == d
    ensures d[0] != 48 ==> DecimalValue(d) > 0
  {
    hide Decimal, Digit;
    var front, last := d[..|d| - 1], d[|d| - 1];
    assert d == front + [last] && last in d;
    DecimalSnoc(DecimalValue(front), last);
    if front == [] {
      assert DecimalValue(front) == 0;
      FirstDigit(last);
    } else {
      assert front[0] == d[0] && forall x | x in front :: x in d;
      OneDecimal(front);
    }
  }

  lemma FirstDigit(b: Byte)
    requires 48 <= b < 58
    ensures b != 48 ==> Digit(b) > 0
  {
  }

  /** What `git_oid` hashes: kind, space, length in decimal, NUL, body. */
  function Frame(kind: Bytes, body: Bytes): Bytes {
    kind + [SPACE] + Decimal(|body|) + [NUL] + body
  }

  /** Reads a frame: the kind, and the bytes after a length in decimal, if there are as many. */
  function ReadFrame(frame: Bytes): Option<(Bytes, Bytes)> {
    var space :- Find(frame, SPACE);
    var rest := frame[space + 1..];
    var nul :- Find(rest, NUL);
    var length, body := rest[..nul], rest[nul + 1..];
    :- Require(IsDecimal(length) && DecimalValue(length) == |body|);
    Some((frame[..space], body))
  }

  /** Every object is read back from its frame, with its length. */
  lemma FrameReadsBack(kind: Bytes, body: Bytes)
    requires SPACE !in kind
    ensures ReadFrame(Frame(kind, body)) == Some((kind, body))
  {
    var length := Decimal(|body|);
    var rest := length + [NUL] + body;
    DecimalReadsBack(|body|);
    assert Frame(kind, body) == kind + [SPACE] + rest;
    FindAfter(kind, SPACE, rest);
    FindAfter(length, NUL, body);
    assert Frame(kind, body)[|kind| + 1..] == rest && Frame(kind, body)[..|kind|] == kind;
    assert rest[..|length|] == length && rest[|length| + 1..] == body;
  }

  /** And whatever is read is the frame of what was read. */
  lemma ReadFrameIsFrame(frame: Bytes)
    requires ReadFrame(frame).Some?
    ensures var (kind, body) := ReadFrame(frame).value; SPACE !in kind && Frame(kind, body) == frame
  {
    hide Decimal, DecimalValue, IsDecimal;
    var space := Find(frame, SPACE).value;
    FindsFirst(frame, SPACE);
    var rest := frame[space + 1..];
    var nul := Find(rest, NUL).value;
    OneDecimal(rest[..nul]);
    hide *;
    Around(frame, space);
    Around(rest, nul);
    var kind, length, body := frame[..space], rest[..nul], rest[nul + 1..];
    FrameOf(kind, length, body);
  }

  lemma Around(b: Bytes, i: nat)
    requires i < |b|
    ensures b == b[..i] + [b[i]] + b[i + 1..]
  {
  }

  lemma FrameOf(kind: Bytes, length: Bytes, body: Bytes)
    requires length == Decimal(|body|)
    ensures Frame(kind, body) == kind + [SPACE] + (length + [NUL] + body)
  {
  }

  /** The framing is uniquely decodable: kinds are never confused and bodies are determined. */
  lemma FrameIsInjective(kind1: Bytes, body1: Bytes, kind2: Bytes, body2: Bytes)
    requires SPACE !in kind1 && SPACE !in kind2
    requires Frame(kind1, body1) == Frame(kind2, body2)
    ensures kind1 == kind2 && body1 == body2
  {
    var rest1, rest2 := Decimal(|body1|) + [NUL] + body1, Decimal(|body2|) + [NUL] + body2;
    assert Frame(kind1, body1) == kind1 + [SPACE] + rest1;
    assert Frame(kind2, body2) == kind2 + [SPACE] + rest2;
    FindAfter(kind1, SPACE, rest1);
    FindAfter(kind2, SPACE, rest2);
    assert kind1 == Frame(kind1, body1)[..|kind1|] && kind2 == Frame(kind2, body2)[..|kind1|];
    assert rest1 == Frame(kind1, body1)[|kind1| + 1..] == Frame(kind2, body2)[|kind1| + 1..] == rest2;
    FindAfter(Decimal(|body1|), NUL, body1);
    FindAfter(Decimal(|body2|), NUL, body2);
    assert body1 == rest1[|Decimal(|body1|)| + 1..] && body2 == rest2[|Decimal(|body1|)| + 1..];
  }
}
