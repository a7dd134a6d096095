/** Percent-encoding of URL parts (lib/churl/churl.go, after section 2.1 of RFC 3986). Which bytes are
    escaped depends on the part; escaping counts first and then fills a buffer of just that length,
    and unescaping checks first and then decodes. */
module Churl {
  import opened Base

  datatype Mode = Path | PathSegment | Host | Zone | UserPassword | QueryComponent | Fragment

  datatype UrlError = EscapeError(text: Bytes) | InvalidHostError(text: Bytes)

  const PERCENT: byte := 37
  const PLUS: byte := 43
  const SPACE: byte := 32

  predicate AlphaNumeric(c: byte) {
    97 <= c <= 122 || 65 <= c <= 90 || 48 <= c <= 57
  }

  /** `! " $ & ' ( ) * + , : ; < = > [ ]`, which a host may hold. */
  predicate HostMark(c: byte) {
    33 <= c <= 34 || c == 36 || 38 <= c <= 44 || 58 <= c <= 62 || c == 91 || c == 93
  }

  /** `- _ . ~`, unreserved everywhere. */
  predicate Unreserved(c: byte) {
    45 <= c <= 46 || c == 95 || c == 126
  }

  /** `$ & + , / : ; = ? @`, reserved but allowed in some parts. */
  predicate Reserved(c: byte) {
    c == 36 || c == 38 || c == 43 || c == 44 || c == 47 || c == 58 || c == 59 || c == 61 || c == 63 || c == 64
  }

  predicate ShouldEscape(c: byte, mode: Mode) {
    if AlphaNumeric(c) then false
    else if (mode.Host? || mode.Zone?) && HostMark(c) then false
    else if Unreserved(c) then false
    else if Reserved(c) && !mode.Host? && !mode.Zone? then
      match mode
      case Path => c == 63
      case PathSegment => c == 47 || c == 59 || c == 44 || c == 63
      case UserPassword => c == 64 || c == 47 || c == 63 || c == 58
      case QueryComponent => true
      case _ => false
    else !(mode.Fragment? && (c == 33 || 40 <= c <= 42))
  }

  /** Besides letters and digits, the bytes that stand for themselves in a part of a URL. */
  function Marks(mode: Mode): string {
    match mode
    case Path => "-_.~$&+,/:;=@"
    case PathSegment => "-_.~$&+:=@"
    case UserPassword => "-_.~$&+,;="
    case QueryComponent => "-_.~"
    case Fragment => "-_.~$&+,/:;=?@!()*"
    case _ => "-_.~!$&'()*+,;=:[]<>\""
  }

  /** Everything else is escaped. */
  lemma ShouldEscapeIff(c: byte, mode: Mode)
    ensures ShouldEscape(c, mode) <==> !AlphaNumeric(c) && c as char !in Marks(mode)
  {
  }

  predicate IsHex(c: byte) {
    48 <= c <= 57 || 97 <= c <= 102 || 65 <= c <= 70
  }

  function Unhex(c: byte): (v: byte)
    requires IsHex(c)
    ensures v < 16
  {
    if c <= 57 then c - 48 else if c >= 97 then c - 87 else c - 55
  }

  /** The digits of the sixteen values, in capitals and in small letters. */
  const CAPITALS: seq<byte> := [48, 49, 50, 51, 52, 53, 54, 55, 56, 57, 65, 66, 67, 68, 69, 70]
  const SMALLS: seq<byte> := [48, 49, 50, 51, 52, 53, 54, 55, 56, 57, 97, 98, 99, 100, 101, 102]

  /** A byte is a hex digit of value `v` exactly if it is the v-th of one of the two rows of digits. */
  lemma UnhexIff(c: byte, v: byte)
    requires v < 16
    ensures IsHex(c) && Unhex(c) == v <==> c == CAPITALS[v] || c == SMALLS[v]
  {
  }

  /** The digit of `upperhex`. */
  function UpperHex(v: byte): (c: byte)
    requires v < 16
    ensures IsHex(c) && Unhex(c) == v && c == CAPITALS[v]
  {
    if v < 10 then v + 48 else v + 55
  }

  // ---------------------------------------------------------------- specification

  /** One byte, escaped. */
  function EscapeByte(c: byte, mode: Mode): (e: Bytes)
    ensures |e| == 1 || |e| == 3
  {
    if c == SPACE && mode.QueryComponent? then [PLUS]
    else if ShouldEscape(c, mode) then [PERCENT, UpperHex(c / 16), UpperHex(c % 16)]
    else [c]
  }

  function Escaped(s: Bytes, mode: Mode): Bytes {
    if s == [] then [] else EscapeByte(s[0], mode) + Escaped(s[1..], mode)
  }

  predicate PercentPair(s: Bytes) {
    |s| >= 3 && IsHex(s[1]) && IsHex(s[2])
  }

  predicate Is25(s: Bytes) {
    |s| >= 3 && s[..3] == [PERCENT, 50, 53]
  }

  function PairValue(s: Bytes): byte
    requires PercentPair(s)
  {
    16 * Unhex(s[1]) + Unhex(s[2])
  }

  /** The complaint about the escape or byte at the front of `s`. */
  function FrontError(s: Bytes, mode: Mode): Option<UrlError>
    requires s != []
  {
    if s[0] == PERCENT then
      if !PercentPair(s) then Some(EscapeError(if |s| > 3 then s[..3] else s))
      else if mode.Host? && Unhex(s[1]) < 8 && !Is25(s) then Some(EscapeError(s[..3]))
      else if mode.Zone? && !Is25(s) && PairValue(s) != SPACE && ShouldEscape(PairValue(s), Host) then
        Some(EscapeError(s[..3]))
      else None
    else if s[0] != PLUS && (mode.Host? || mode.Zone?) && s[0] < 128 && ShouldEscape(s[0], mode) then
      Some(InvalidHostError(s[..1]))
    else None
  }

  /** How many bytes the front of `s` takes, and what it stands for. */
  function FrontLen(s: Bytes): nat
    requires s != []
  {
    if s[0] == PERCENT then 3 else 1
  }

  function FrontByte(s: Bytes, mode: Mode): byte
    requires s != [] && (s[0] == PERCENT ==> PercentPair(s))
  {
    if s[0] == PERCENT then PairValue(s)
    else if s[0] == PLUS && mode.QueryComponent? then SPACE
    else s[0]
  }

  /** The text that `s` stands for, or the first complaint about it. */
  function Unescaped(s: Bytes, mode: Mode): Result<Bytes, UrlError> {
    if s == [] then Ok([])
    else if FrontError(s, mode).Some? then Err(FrontError(s, mode).value)
    else match Unescaped(s[FrontLen(s)..], mode)
      case Err(e) => Err(e)
      case Ok(t) => Ok([FrontByte(s, mode)] + t)
  }

  // ---------------------------------------------------------------- which texts are taken

  /** Position `i` gives no ground for a complaint: a percent sign has two hex digits behind it and, in hosts
      and zones, encodes what may be encoded there; any other byte of theirs below 128 may stand there. */
  predicate Fine(s: Bytes, i: nat, mode: Mode)
    requires i < |s|
  {
    if s[i] == PERCENT then
      && i + 2 < |s| && IsHex(s[i + 1]) && IsHex(s[i + 2])
      && (mode.Host? ==> Unhex(s[i + 1]) >= 8 || s[i + 1..i + 3] == [50, 53])
      && (mode.Zone? ==> MayEncode(16 * Unhex(s[i + 1]) + Unhex(s[i + 2])))
    else mode.Host? || mode.Zone? ==> s[i] == PLUS || s[i] >= 128 || !ShouldEscape(s[i], mode)
  }

  /** What a zone may percent-encode. */
  predicate MayEncode(c: byte) {
    c == PERCENT || c == SPACE || !ShouldEscape(c, Host)
  }

  /** A text is decoded exactly if no position gives ground for a complaint. */
  lemma {:induction false} UnescapedOkIff(s: Bytes, mode: Mode)
    ensures Unescaped(s, mode).Ok? <==> forall i | 0 <= i < |s| :: Fine(s, i, mode)
  {
    if s != [] {
      FrontFine(s, mode);
      if FrontError(s, mode).None? {
        var n := FrontLen(s);
        UnescapedOkIff(s[n..], mode);
        forall i | n <= i < |s| ensures Fine(s, i, mode) == Fine(s[n..], i - n, mode) { FineBehind(s, n, i, mode); }
        forall i | 0 <= i < |s[n..]| ensures Fine(s[n..], i, mode) == Fine(s, n + i, mode) {}
      }
    }
  }

  lemma FineBehind(s: Bytes, n: nat, i: nat, mode: Mode)
    requires n <= i < |s|
    ensures Fine(s, i, mode) == Fine(s[n..], i - n, mode)
  {
    if i + 2 < |s| { assert s[n..][i - n + 1..i - n + 3] == s[i + 1..i + 3]; }
  }

  /** The front of a text: a complaint there is one about its first position, and the digits of an escape
      give no ground for another. */
  lemma FrontFine(s: Bytes, mode: Mode)
    requires s != []
    ensures FrontError(s, mode).None? <==> Fine(s, 0, mode)
    ensures Fine(s, 0, mode) ==> FrontLen(s) <= |s| && forall i | 0 < i < FrontLen(s) :: Fine(s, i, mode)
  {
    if |s| >= 3 {
      assert s[..3] == [s[0], s[1], s[2]] && s[1..3] == [s[1], s[2]];
    }
  }

  // ---------------------------------------------------------------- round trip

  /** The bytes that survive being escaped and unescaped. Hosts may not percent-encode ASCII
      except the percent sign, and zones only what a host could hold anyway, percent and space. */
  predicate Survives(c: byte, mode: Mode) {
    match mode
    case Host => c >= 128 || c == PERCENT || !ShouldEscape(c, Host)
    case Zone => c == SPACE || c == PERCENT || !ShouldEscape(c, Zone)
    case _ => true
  }

  predicate AllSurvive(s: Bytes, mode: Mode) {
    s == [] || (Survives(s[0], mode) && AllSurvive(s[1..], mode))
  }

  lemma {:induction false} AllSurviveOutsideHosts(s: Bytes, mode: Mode)
    requires !mode.Host? && !mode.Zone?
    ensures AllSurvive(s, mode)
  {
    if s != [] { AllSurviveOutsideHosts(s[1..], mode); }
  }

  /** A front byte that survives is read back as itself, and one that does not is refused. */
  lemma FrontRoundTrip(c: byte, mode: Mode, rest: Bytes)
    ensures var s := EscapeByte(c, mode) + rest;
      && (FrontError(s, mode) == None <==> Survives(c, mode))
      && (Survives(c, mode) ==> s[FrontLen(s)..] == rest && FrontByte(s, mode) == c)
  {
    var e := EscapeByte(c, mode);
    var s := e + rest;
    if |e| == 3 {
    } else {
      assert s[0] == e[0] && s[1..] == rest;
    }
  }

  /** Escaping and unescaping gives every text back whose bytes all survive, and refuses the rest. */
  lemma {:induction false} RoundTrip(s: Bytes, mode: Mode)
    ensures AllSurvive(s, mode) ==> Unescaped(Escaped(s, mode), mode) == Ok(s)
    ensures !AllSurvive(s, mode) ==> Unescaped(Escaped(s, mode), mode).Err?
  {
    if s != [] {
      assert s == [s[0]] + s[1..];
      FrontRoundTrip(s[0], mode, Escaped(s[1..], mode));
      RoundTrip(s[1..], mode);
    }
  }

  /** Path, path segment, userinfo, query and fragment round-trip every byte string. */
  lemma RoundTripAll(s: Bytes, mode: Mode)
    requires !mode.Host? && !mode.Zone?
    ensures Unescaped(Escaped(s, mode), mode) == Ok(s)
  {
    AllSurviveOutsideHosts(s, mode);
    RoundTrip(s, mode);
  }

  // ---------------------------------------------------------------- the code

  /** How many bytes of `s` the escape buffer needs beyond |s|, in units of two. */
  function HexCount(s: Bytes, mode: Mode): nat {
    if s == [] then 0
    else
      var n := |s| - 1;
      HexCount(s[..n], mode) + if |EscapeByte(s[n], mode)| == 3 then 1 else 0
  }

  lemma {:induction false} EscapedSnoc(s: Bytes, c: byte, mode: Mode)
    ensures Escaped(s + [c], mode) == Escaped(s, mode) + EscapeByte(c, mode)
  {
    if s == [] {
      assert Escaped([c], mode) == EscapeByte(c, mode) + Escaped([], mode);
    } else {
      EscapedSnoc(s[1..], c, mode);
      assert (s + [c])[1..] == s[1..] + [c] && (s + [c])[0] == s[0];
    }
  }

  lemma Split(s: Bytes)
    requires s != []
    ensures s == s[..|s| - 1] + [s[|s| - 1]]
  {
  }

  lemma EscapedLast(s: Bytes, mode: Mode)
    requires s != []
    ensures Escaped(s, mode) == Escaped(s[..|s| - 1], mode) + EscapeByte(s[|s| - 1], mode)
  {
    Split(s);
    EscapedSnoc(s[..|s| - 1], s[|s| - 1], mode);
  }

  /** The preallocated buffer has exactly the length of the escaped text. */
  lemma {:induction false} EscapedLength(s: Bytes, mode: Mode)
    ensures |Escaped(s, mode)| == |s| + 2 * HexCount(s, mode)
  {
    if s != [] {
      var n := |s| - 1;
      EscapedLength(s[..n], mode);
      EscapedLast(s, mode);
    }
  }

  /** The spaces that become plus signs. */
  function SpaceCount(s: Bytes, mode: Mode): nat {
    if s == [] then 0
    else
      var n := |s| - 1;
      SpaceCount(s[..n], mode) + if s[n] == SPACE && mode.QueryComponent? then 1 else 0
  }

  lemma EscapeByteKinds(c: byte, mode: Mode)
    ensures |EscapeByte(c, mode)| == 3 <==> ShouldEscape(c, mode) && !(c == SPACE && mode.QueryComponent?)
    ensures c == SPACE && mode.QueryComponent? ==> ShouldEscape(c, mode) && EscapeByte(c, mode) == [PLUS]
    ensures |EscapeByte(c, mode)| != 3 && !(c == SPACE && mode.QueryComponent?) ==> EscapeByte(c, mode) == [c]
  {
  }

  /** A text in which nothing needs escaping is its own escaped form. */
  lemma {:induction false} EscapedPlain(s: Bytes, mode: Mode)
    requires SpaceCount(s, mode) == 0 && HexCount(s, mode) == 0
    ensures Escaped(s, mode) == s
  {
    if s != [] {
      var n := |s| - 1;
      EscapedPlain(s[..n], mode);
      EscapeByteKinds(s[n], mode);
      EscapedLast(s, mode);
      Split(s);
    }
  }

  /** With only spaces to replace, the escaped form is the text with plus signs. */
  lemma {:induction false} EscapedSpaces(s: Bytes, t: Bytes)
    requires |s| == |t| && HexCount(s, QueryComponent) == 0
    requires forall k | 0 <= k < |s| :: t[k] == if s[k] == SPACE then PLUS else s[k]
    ensures Escaped(s, QueryComponent) == t
  {
    if s != [] {
      var n := |s| - 1;
      EscapedSpaces(s[..n], t[..n]);
      EscapeByteKinds(s[n], QueryComponent);
      EscapedLast(s, QueryComponent);
      Split(t);
    }
  }

  lemma {:induction false} NoSpaces(s: Bytes, mode: Mode)
    requires !mode.QueryComponent?
    ensures SpaceCount(s, mode) == 0
  {
    if s != [] { NoSpaces(s[..|s| - 1], mode); }
  }

  method CountEscapes(s: Bytes, mode: Mode) returns (spaceCount: nat, hexCount: nat)
    ensures spaceCount == SpaceCount(s, mode) && hexCount == HexCount(s, mode)
  {
    spaceCount, hexCount := 0, 0;
    var i := 0;
    while i < |s|
      invariant 0 <= i <= |s| && spaceCount == SpaceCount(s[..i], mode) && hexCount == HexCount(s[..i], mode)
    {
      assert s[..i + 1][..i] == s[..i];
      EscapeByteKinds(s[i], mode);
      if ShouldEscape(s[i], mode) {
        if s[i] == SPACE && mode.QueryComponent? {
          spaceCount := spaceCount + 1;
        } else {
          hexCount := hexCount + 1;
        }
      }
      i := i + 1;
    }
    assert s[..|s|] == s;
  }

  method Escape(s: Bytes, mode: Mode) returns (r: Bytes)
    ensures r == Escaped(s, mode)
  {
    var spaceCount, hexCount := CountEscapes(s, mode);
    if spaceCount == 0 && hexCount == 0 {
      EscapedPlain(s, mode);
      return s;
    }
    EscapedLength(s, mode);
    var t := new byte[|s| + 2 * hexCount];
    if !mode.QueryComponent? { NoSpaces(s, mode); }
    if hexCount == 0 {
      ReplaceSpaces(s, t);
      EscapedSpaces(s, t[..]);
    } else {
      FillEscaped(s, mode, t);
    }
    r := t[..];
  }

  method ReplaceSpaces(s: Bytes, t: array<byte>)
    requires t.Length == |s|
    modifies t
    ensures forall k | 0 <= k < |s| :: t[k] == if s[k] == SPACE then PLUS else s[k]
  {
    for i := 0 to |s|
      invariant forall k | 0 <= k < i :: t[k] == if s[k] == SPACE then PLUS else s[k]
    {
      t[i] := s[i];
      if s[i] == SPACE { t[i] := PLUS; }
    }
  }

  /** Writes the escaped form of one byte at `j`. */
  method PutEscaped(c: byte, mode: Mode, t: array<byte>, j: nat) returns (j': nat)
    requires j + |EscapeByte(c, mode)| <= t.Length
    modifies t
    ensures j' == j + |EscapeByte(c, mode)| && t[..j'] == old(t[..j]) + EscapeByte(c, mode)
  {
    if c == SPACE && mode.QueryComponent? {
      t[j] := PLUS;
      j' := j + 1;
    } else if ShouldEscape(c, mode) {
      t[j] := PERCENT;
      t[j + 1] := UpperHex(c / 16);
      t[j + 2] := UpperHex(c % 16);
      j' := j + 3;
    } else {
      t[j] := c;
      j' := j + 1;
    }
  }

  lemma FillStep(s: Bytes, i: nat, mode: Mode)
    requires i < |s|
    ensures Escaped(s[..i + 1], mode) == Escaped(s[..i], mode) + EscapeByte(s[i], mode)
    ensures |Escaped(s[i..], mode)| == |EscapeByte(s[i], mode)| + |Escaped(s[i + 1..], mode)|
  {
    EscapedSnoc(s[..i], s[i], mode);
    assert s[..i] + [s[i]] == s[..i + 1] && s[i..][1..] == s[i + 1..];
  }

  /** Fills the buffer front to back and ends exactly at its end. */
  method FillEscaped(s: Bytes, mode: Mode, t: array<byte>)
    requires t.Length == |Escaped(s, mode)|
    modifies t
    ensures t[..] == Escaped(s, mode)
  {
    var j, i := 0, 0;
    while i < |s|
      invariant 0 <= i <= |s| && 0 <= j <= t.Length
      invariant t[..j] == Escaped(s[..i], mode)
      invariant j + |Escaped(s[i..], mode)| == t.Length
    {
      FillStep(s, i, mode);
      j := PutEscaped(s[i], mode, t, j);
      i := i + 1;
    }
    assert s[..|s|] == s && t[..j] == t[..];
  }

  /** What the checking pass knows at position `i` of `s`, having seen `n` escapes: how the meaning of
      the whole text follows from that of the rest. */
  ghost predicate Follows(s: Bytes, i: nat, n: nat, plain: bool, whole: Result<Bytes, UrlError>,
                          rest: Result<Bytes, UrlError>) {
    && i <= |s| && (rest.Err? ==> whole == rest)
    && (rest.Ok? ==> whole.Ok? && |whole.value| == i - 2 * n + |rest.value|)
    && (rest.Ok? && plain ==> whole.value == s[..i] + rest.value)
  }

  ghost predicate Checked(s: Bytes, i: nat, mode: Mode, n: nat, hasPlus: bool) {
    && i <= |s| && (hasPlus ==> mode.QueryComponent?)
    && Follows(s, i, n, n == 0 && !hasPlus, Unescaped(s, mode), Unescaped(s[i..], mode))
  }

  lemma FollowsStep(s: Bytes, i: nat, n: nat, plain: bool, whole: Result<Bytes, UrlError>,
                    rest: Result<Bytes, UrlError>, step: nat, b: byte, tail: Result<Bytes, UrlError>,
                    n': nat, plain': bool)
    requires Follows(s, i, n, plain, whole, rest) && i + step <= |s|
    requires (step == 1 && n' == n) || (step == 3 && n' == n + 1)
    requires rest == (if tail.Err? then tail else Ok([b] + tail.value))
    requires plain' ==> plain && step == 1 && b == s[i]
    ensures Follows(s, i + step, n', plain', whole, tail)
  {
    if tail.Ok? && plain' { assert s[..i + 1] + tail.value == s[..i] + ([s[i]] + tail.value); }
  }

  lemma CheckStep(s: Bytes, i: nat, mode: Mode, n: nat, hasPlus: bool)
    requires i < |s| && Checked(s, i, mode, n, hasPlus) && FrontError(s[i..], mode) == None
    ensures i + FrontLen(s[i..]) <= |s|
    ensures var plus := if s[i] == PLUS then mode.QueryComponent? else hasPlus;
      Checked(s, i + FrontLen(s[i..]), mode, if s[i] == PERCENT then n + 1 else n, plus)
  {
    var front := s[i..];
    var step, b := FrontLen(front), FrontByte(front, mode);
    assert front[step..] == s[i + step..];
    var n', plus := if s[i] == PERCENT then n + 1 else n, if s[i] == PLUS then mode.QueryComponent? else hasPlus;
    FollowsStep(s, i, n, n == 0 && !hasPlus, Unescaped(s, mode), Unescaped(front, mode),
                step, b, Unescaped(front[step..], mode), n', n' == 0 && !plus);
  }

  lemma CheckStart(s: Bytes, mode: Mode)
    ensures Checked(s, 0, mode, 0, false)
  {
    assert s[0..] == s;
    if Unescaped(s, mode).Ok? { assert s[..0] + Unescaped(s, mode).value == Unescaped(s, mode).value; }
  }

  lemma CheckEnd(s: Bytes, mode: Mode, n: nat, hasPlus: bool)
    requires Checked(s, |s|, mode, n, hasPlus)
    ensures Unescaped(s, mode).Ok? && |Unescaped(s, mode).value| == |s| - 2 * n
    ensures n == 0 && !hasPlus ==> Unescaped(s, mode) == Ok(s)
  {
    assert s[|s|..] == [] && s[..|s|] + [] == s;
  }

  /** The checking pass: the first complaint, or how many escapes there are and whether a plus
      stands for a space. Without either the text is its own meaning. */
  method CheckEscapes(s: Bytes, mode: Mode) returns (bad: Option<UrlError>, n: nat, hasPlus: bool)
    ensures bad.Some? ==> Unescaped(s, mode) == Err(bad.value)
    ensures bad.None? ==> Unescaped(s, mode).Ok? && |Unescaped(s, mode).value| == |s| - 2 * n
    ensures bad.None? && n == 0 && !hasPlus ==> Unescaped(s, mode) == Ok(s)
  {
    bad, n, hasPlus := None, 0, false;
    var i := 0;
    CheckStart(s, mode);
    while i < |s|
      invariant i <= |s| && bad.None? && Checked(s, i, mode, n, hasPlus)
    {
      bad, n, hasPlus, i := CheckNext(s, i, mode, n, hasPlus);
      if bad.Some? { return; }
    }
    CheckEnd(s, mode, n, hasPlus);
  }

  method CheckNext(s: Bytes, i: nat, mode: Mode, n: nat, hasPlus: bool)
      returns (bad: Option<UrlError>, n': nat, hasPlus': bool, i': nat)
    requires i < |s| && Checked(s, i, mode, n, hasPlus)
    ensures bad.Some? ==> Unescaped(s, mode) == Err(bad.value)
    ensures bad.None? ==> i < i' <= |s| && Checked(s, i', mode, n', hasPlus')
  {
    n', hasPlus', i' := n, hasPlus, i;
    bad := FrontError(s[i..], mode);
    if bad.Some? { return; }
    CheckStep(s, i, mode, n, hasPlus);
    if s[i] == PERCENT { n' := n + 1; } else if s[i] == PLUS { hasPlus' := mode.QueryComponent?; }
    i' := i + FrontLen(s[i..]);
  }

  /** One turn of the decoding pass: what is read at `i` is in range and is the next byte of the text. */
  lemma DecodeStep(s: Bytes, i: nat, mode: Mode, t: Bytes)
    requires i < |s| && Unescaped(s[i..], mode).Ok?
    ensures s[i] == PERCENT ==> i + 2 < |s| && IsHex(s[i + 1]) && IsHex(s[i + 2])
    ensures var b := if s[i] == PERCENT then 16 * Unhex(s[i + 1]) + Unhex(s[i + 2])
                     else if s[i] == PLUS && mode.QueryComponent? then SPACE else s[i];
      var next := if s[i] == PERCENT then i + 3 else i + 1;
      && Unescaped(s[next..], mode).Ok?
      && t + Unescaped(s[i..], mode).value == (t + [b]) + Unescaped(s[next..], mode).value
  {
  }

  /** The decoding pass over a text without complaints; it never reads past the end. */
  method DecodeEscapes(s: Bytes, mode: Mode) returns (t: Bytes)
    requires Unescaped(s, mode).Ok?
    ensures t == Unescaped(s, mode).value
  {
    t := [];
    var i := 0;
    assert s[0..] == s && [] + Unescaped(s, mode).value == Unescaped(s, mode).value;
    while i < |s|
      invariant 0 <= i <= |s| && Unescaped(s[i..], mode).Ok?
      invariant t + Unescaped(s[i..], mode).value == Unescaped(s, mode).value
    {
      DecodeStep(s, i, mode, t);
      if s[i] == PERCENT {
        t := t + [16 * Unhex(s[i + 1]) + Unhex(s[i + 2])];
        i := i + 3;
      } else {
        t := t + [if s[i] == PLUS && mode.QueryComponent? then SPACE else s[i]];
        i := i + 1;
      }
    }
    assert s[i..] == [] && t + [] == t;
  }

  method Unescape(s: Bytes, mode: Mode) returns (r: Result<Bytes, UrlError>)
    ensures r == Unescaped(s, mode)
  {
    var bad, n, hasPlus := CheckEscapes(s, mode);
    if bad.Some? { return Err(bad.value); }
    if n == 0 && !hasPlus { return Ok(s); }
    var t := DecodeEscapes(s, mode);
    r := Ok(t);
  }

  // ---------------------------------------------------------------- paths and fragments

  class Url {
    var path: Bytes
    var rawPath: Bytes
    var fragment: Bytes
    var rawFragment: Bytes

    /** Sets Path, and RawPath only when the default escaping of Path differs from the given text.
        Either way the given text can be recovered from the two. */
    method SetPath(p: Bytes) returns (error: Option<UrlError>)
      modifies this`path, this`rawPath
      ensures error.Some? ==> unchanged(this) && Unescaped(p, Path) == Err(error.value)
      ensures error.None? ==> Unescaped(p, Path) == Ok(path) && Recovered(path, rawPath, Path) == p
      ensures error.None? ==> (rawPath == [] <==> p == Escaped(path, Path))
    {
      var text := Unescape(p, Path);
      if text.Err? { return Some(text.error); }
      path := text.value;
      var escaped := Escape(text.value, Path);
      rawPath := if p == escaped then [] else p;
      error := None;
    }

    method SetFragment(f: Bytes) returns (error: Option<UrlError>)
      modifies this`fragment, this`rawFragment
      ensures error.Some? ==> unchanged(this) && Unescaped(f, Fragment) == Err(error.value)
      ensures error.None? ==> Unescaped(f, Fragment) == Ok(fragment) && Recovered(fragment, rawFragment, Fragment) == f
      ensures error.None? ==> (rawFragment == [] <==> f == Escaped(fragment, Fragment))
    {
      var text := Unescape(f, Fragment);
      if text.Err? { return Some(text.error); }
      fragment := text.value;
      var escaped := Escape(text.value, Fragment);
      rawFragment := if f == escaped then [] else f;
      error := None;
    }
  }

  /** The original text from the decoded part and the hint kept beside it. */
  function Recovered(text: Bytes, raw: Bytes, mode: Mode): Bytes {
    if raw == [] then Escaped(text, mode) else raw
  }
}
