/** The accessory manager's Base64 decoder, with the encoder of section 4 of RFC 4648 as its reference. */
module Base64 {

  type byte = n: int | 0 <= n < 0x100

  // Shifts and masks of bytes are written as arithmetic: `x << n` is `x * 2^n`, `x >> n` is `x / 2^n`, a mask of
  // low bits is a remainder, and storing into a byte takes the remainder by 256.

  /** `n` characters in code order. */
  function Letters(first: char, n: nat): (s: string)
    requires first as int + n < 0x100
    ensures |s| == n && forall k :: 0 <= k < n ==> s[k] == first + k as char
  {
    if n == 0 then [] else Letters(first, n - 1) + [first + (n - 1) as char]
  }

  /** The upper-case letters, the lower-case letters, the digits, '+' and '/'. */
  const ALPHABET: string := Letters('A', 26) + Letters('a', 26) + Letters('0', 10) + "+/"

  predicate IsBase64(c: char) {
    'A' <= c <= 'Z' || 'a' <= c <= 'z' || '0' <= c <= '9' || c == '+' || c == '/'
  }

  /** `std::string::find` of one character. */
  function Find(s: string, c: char, from: nat): (k: nat)
    requires from <= |s|
    ensures from <= k <= |s| && (k < |s| ==> s[k] == c) && forall j :: from <= j < k ==> s[j] != c
    decreases |s| - from
  {
    if from == |s| || s[from] == c then from else Find(s, c, from + 1)
  }

  /** The value of a character; "not found" is cut to the byte 0xFF. */
  function Sextet(c: char): byte {
    var k := Find(ALPHABET, c, 0);
    if k < 64 then k else 0xFF
  }

  // The three bytes of a group of four values; what leaves the byte is dropped.

  function First(c0: byte, c1: byte): byte {
    (c0 * 4 + c1 / 16 % 4) % 256
  }

  function Second(c1: byte, c2: byte): byte {
    (c1 % 16 * 16 + c2 / 4 % 16) % 256
  }

  function Third(c2: byte, c3: byte): byte {
    (c2 % 4 * 64 + c3) % 256
  }

  /** The longest prefix of alphabet characters. */
  function Prefix(s: string): string {
    if s == [] || !IsBase64(s[0]) then [] else [s[0]] + Prefix(s[1..])
  }

  function Values(p: string): (vs: seq<byte>)
    ensures |vs| == |p|
  {
    if p == [] then [] else [Sextet(p[0])] + Values(p[1..])
  }

  lemma {:induction false} ValueAt(p: string, k: nat)
    requires k < |p|
    ensures Values(p)[k] == Sextet(p[k])
  {
    if k > 0 {
      ValueAt(p[1..], k - 1);
    }
  }

  /** Four values make three bytes; of a short last group only the bytes that its own values determine are kept. */
  function Pack(vs: seq<byte>): seq<byte> {
    if |vs| < 2 then []
    else if |vs| == 2 then [First(vs[0], vs[1])]
    else if |vs| == 3 then [First(vs[0], vs[1]), Second(vs[1], vs[2])]
    else Group(vs[0], vs[1], vs[2], vs[3]) + Pack(vs[4..])
  }

  function Group(v0: byte, v1: byte, v2: byte, v3: byte): seq<byte> {
    [First(v0, v1), Second(v1, v2), Third(v2, v3)]
  }

  function Decode(p: string): seq<byte> {
    Pack(Values(p))
  }

  /** Looks up the four characters of a group and packs their values. */
  method DecodeGroup(charArray4: array<char>) returns (charArray3: seq<byte>)
    requires charArray4.Length == 4
    ensures charArray3 == GroupOf(charArray4[..])
  {
    var values := new byte[4];
    for j := 0 to 4
      invariant forall k :: 0 <= k < j ==> values[k] == Sextet(charArray4[k])
    {
      values[j] := Sextet(charArray4[j]);
    }
    charArray3 := [First(values[0], values[1]), Second(values[1], values[2]), Third(values[2], values[3])];
  }

  /** A short last group is filled up with characters outside the alphabet, and only its own bytes are kept. */
  method DecodeTail(charArray4: array<char>, i: nat, ghost s: string, ghost from: nat, ghost vs: seq<byte>,
                    ghost done: seq<byte>)
    returns (bytes: seq<byte>)
    requires 0 < i < 4 == charArray4.Length && from + i == |vs| && AreValuesOf(vs, s)
    requires Holds(charArray4[..], i, s, from) && PackedSoFar(vs, from, done)
    modifies charArray4
    ensures done + bytes == Pack(vs)
  {
    for j := i to 4
      invariant Holds(charArray4[..], i, s, from)
    {
      HoldsFiller(charArray4[..], i, s, from, j);
      ghost var filled := charArray4[..][j := '\0'];
      charArray4[j] := '\0';
      assert charArray4[..] == filled;
    }
    var charArray3 := DecodeGroup(charArray4);
    PackShortGroup(s, vs, from, done, charArray4[..]);
    bytes := charArray3[..i - 1];
  }

  /** `vs` are the values of the first characters. */
  ghost predicate AreValuesOf(vs: seq<byte>, s: string) {
    |vs| <= |s| && vs == Values(s[..|vs|])
  }

  /** The length is kept in an `int`: a text of 2^31 characters makes it negative, one of 2^32 makes it zero. */
  function Length(s: string): int {
    var n := |s| % 0x1_0000_0000;
    if n < 0x8000_0000 then n else n - 0x1_0000_0000
  }

  /** What the counter lets the loop see: a negative one does not stop it. */
  function Seen(s: string): string {
    if Length(s) >= 0 then s[..Length(s)] else s
  }

  /** The counter must not run below the least `int`. The result does not depend on the characters that fill up a short
      group, nor on anything after the alphabet prefix. */
  method Base64Decode(basicString: string) returns (ret: seq<byte>)
    requires Length(basicString) >= 0 || |Prefix(basicString)| < 0x8000_0000 + Length(basicString)
    ensures ret == Decode(Prefix(Seen(basicString)))
    ensures |basicString| < 0x8000_0000 ==> ret == Decode(Prefix(basicString))
  {
    ghost var vs := Values(Prefix(Seen(basicString)));
    SeenValues(basicString);
    ret := DecodeLoop(basicString, Length(basicString), vs);
  }

  /** `vs` are the values that a loop with this counter comes to. */
  ghost predicate Loops(vs: seq<byte>, s: string, length: int) {
    && AreValuesOf(vs, s) && (forall k :: 0 <= k < |vs| ==> IsBase64(s[k]))
    && (|vs| < |s| && |vs| != length ==> !IsBase64(s[|vs|]))
    && (if length >= 0 then |vs| <= length <= |s| else |vs| < 0x8000_0000 + length)
  }

  lemma SeenValues(s: string)
    requires Length(s) >= 0 || |Prefix(s)| < 0x8000_0000 + Length(s)
    ensures Loops(Values(Prefix(Seen(s))), s, Length(s))
    ensures |s| < 0x8000_0000 ==> Seen(s) == s
  {
    PrefixStarts(s, Seen(s));
  }

  lemma PrefixStarts(s: string, seen: string)
    requires seen <= s
    ensures var vs := Values(Prefix(seen));
            && AreValuesOf(vs, s) && |vs| <= |seen| && (forall k :: 0 <= k < |vs| ==> IsBase64(s[k]))
            && (|vs| < |seen| ==> !IsBase64(s[|vs|]))
  {
    var p := Prefix(seen);
    PrefixExact(seen);
    assert s[..|p|] == seen[..|p|] == p;
    forall k | 0 <= k < |p| ensures IsBase64(s[k]) {
      assert p[k] in p && s[k] == p[k];
    }
  }

  /** The loop goes on just while there is a value left. */
  lemma LoopsOn(vs: seq<byte>, s: string, length: int, index: nat)
    requires Loops(vs, s, length) && index <= |vs|
    ensures index < |vs| <==> length != index && index < |s| && s[index] != '=' && IsBase64(s[index])
    ensures index < |vs| ==> length - index > -0x8000_0000
  {
  }

  method PutCharacter(charArray4: array<char>, i: nat, s: string, index: nat)
    requires i < charArray4.Length && i <= index < |s| && Holds(charArray4[..], i, s, index - i)
    modifies charArray4
    ensures charArray4[..] == old(charArray4[..])[i := s[index]] && Holds(charArray4[..], i + 1, s, index - i)
  {
    HoldsNext(charArray4[..], i, s, index - i);
    ghost var grown := charArray4[..][i := s[index]];
    charArray4[i] := s[index];
    assert charArray4[..] == grown;
  }

  /** A full group is packed behind what was decoded before it. */
  method AppendGroup(charArray4: array<char>, ghost s: string, ghost from: nat, ghost vs: seq<byte>, done: seq<byte>)
    returns (ret: seq<byte>)
    requires charArray4.Length == 4 && AreValuesOf(vs, s) && from + 4 <= |vs|
    requires Holds(charArray4[..], 4, s, from) && PackedSoFar(vs, from, done)
    ensures PackedSoFar(vs, from + 4, ret)
  {
    var charArray3 := DecodeGroup(charArray4);
    PackFullGroup(s, vs, from, done, charArray4[..]);
    ret := done + charArray3;
  }

  /** One turn of the loop: the character joins its group, and a full group is packed. */
  method TakeCharacter(charArray4: array<char>, i: nat, s: string, index: nat, ghost vs: seq<byte>, done: seq<byte>)
    returns (i': nat, ret: seq<byte>)
    requires charArray4.Length == 4 && i < 4 && i <= index < |vs| && AreValuesOf(vs, s)
    requires Holds(charArray4[..], i, s, index - i) && PackedSoFar(vs, index - i, done)
    modifies charArray4
    ensures i' < 4 && i' <= index + 1
    ensures Holds(charArray4[..], i', s, index + 1 - i') && PackedSoFar(vs, index + 1 - i', ret)
  {
    PutCharacter(charArray4, i, s, index);
    i', ret := i + 1, done;
    if i' == 4 {
      ret := AppendGroup(charArray4, s, index - 3, vs, done);
      i' := 0;
    }
  }

  /** The loop of the decoder; behind the last character stands a zero. */
  method DecodeLoop(basicString: string, length: int, ghost vs: seq<byte>) returns (ret: seq<byte>)
    requires Loops(vs, basicString, length)
    ensures ret == Pack(vs)
  {
    ret := [];
    var charArray4 := new char[4];
    var i, index, len := 0, 0, length;
    PackStart(vs);
    LoopsOn(vs, basicString, length, 0);
    while len != 0 && index < |basicString| && basicString[index] != '=' && IsBase64(basicString[index])
      invariant 0 <= i < 4 && i <= index <= |vs| && len == length - index
      invariant Holds(charArray4[..], i, basicString, index - i)
      invariant PackedSoFar(vs, index - i, ret)
      decreases |basicString| - index
    {
      LoopsOn(vs, basicString, length, index);
      assert len > -0x8000_0000;
      i, ret := TakeCharacter(charArray4, i, basicString, index, vs, ret);
      index, len := index + 1, len - 1;
    }
    LoopsOn(vs, basicString, length, index);
    assert index == |vs|;
    if i != 0 {
      var bytes := DecodeTail(charArray4, i, basicString, index - i, vs, ret);
      ret := ret + bytes;
    } else {
      PackEnd(vs, index - i, ret);
    }
  }

  /** The first `n` characters of the group are those of `s` from `from` on. */
  ghost predicate Holds(group: string, n: nat, s: string, from: nat) {
    n <= |group| && from + n <= |s| && forall k :: 0 <= k < n ==> group[k] == s[from..][k]
  }

  lemma HoldsNext(group: string, n: nat, s: string, from: nat)
    requires Holds(group, n, s, from) && n < |group| && from + n < |s|
    ensures Holds(group[n := s[from + n]], n + 1, s, from)
  {
  }

  lemma HoldsFiller(group: string, n: nat, s: string, from: nat, j: nat)
    requires Holds(group, n, s, from) && n <= j < |group|
    ensures Holds(group[j := '\0'], n, s, from)
  {
  }

  /** The groups before `from` have been packed into `done`. */
  ghost predicate PackedSoFar(vs: seq<byte>, from: nat, done: seq<byte>) {
    from <= |vs| && Pack(vs) == done + Pack(vs[from..])
  }

  lemma PackStart(vs: seq<byte>)
    ensures PackedSoFar(vs, 0, [])
  {
    assert vs[0..] == vs;
    assert [] + Pack(vs) == Pack(vs);
  }

  lemma PackEnd(vs: seq<byte>, from: nat, done: seq<byte>)
    requires from == |vs| && PackedSoFar(vs, from, done)
    ensures done == Pack(vs)
  {
    assert vs[|vs|..] == [];
  }

  function GroupOf(group: string): seq<byte>
    requires |group| == 4
  {
    Group(Sextet(group[0]), Sextet(group[1]), Sextet(group[2]), Sextet(group[3]))
  }

  lemma ValueHeld(s: string, vs: seq<byte>, from: nat, group: string, n: nat, k: nat)
    requires AreValuesOf(vs, s) && Holds(group, n, s, from) && from + n <= |vs| && k < n
    ensures vs[from + k] == Sextet(group[k])
  {
    ValueAt(s[..|vs|], from + k);
    assert s[from..][k] == s[from + k] == s[..|vs|][from + k];
  }

  lemma PackNext(vs: seq<byte>, from: nat, done: seq<byte>)
    requires from + 4 <= |vs| && PackedSoFar(vs, from, done)
    ensures PackedSoFar(vs, from + 4, done + Group(vs[from], vs[from + 1], vs[from + 2], vs[from + 3]))
  {
    var bytes, ws := Group(vs[from], vs[from + 1], vs[from + 2], vs[from + 3]), vs[from..];
    assert ws[4..] == vs[from + 4..];
    assert Pack(ws) == bytes + Pack(ws[4..]);
    assert done + (bytes + Pack(ws[4..])) == (done + bytes) + Pack(ws[4..]);
  }

  lemma PackFullGroup(s: string, vs: seq<byte>, from: nat, done: seq<byte>, group: string)
    requires AreValuesOf(vs, s) && |group| == 4 && from + 4 <= |vs|
    requires Holds(group, 4, s, from) && PackedSoFar(vs, from, done)
    ensures PackedSoFar(vs, from + 4, done + GroupOf(group))
  {
    PackNext(vs, from, done);
    ValueHeld(s, vs, from, group, 4, 0);
    ValueHeld(s, vs, from, group, 4, 1);
    ValueHeld(s, vs, from, group, 4, 2);
    ValueHeld(s, vs, from, group, 4, 3);
  }

  lemma PackLast(vs: seq<byte>, from: nat, done: seq<byte>, v0: byte, v1: byte, v2: byte, v3: byte)
    requires from < |vs| < from + 4 && PackedSoFar(vs, from, done)
    requires vs[from] == v0 && (|vs| > from + 1 ==> vs[from + 1] == v1) && (|vs| > from + 2 ==> vs[from + 2] == v2)
    ensures Pack(vs) == done + Group(v0, v1, v2, v3)[..|vs| - from - 1]
  {
    assert vs[from..][0] == v0;
  }

  lemma PackShortGroup(s: string, vs: seq<byte>, from: nat, done: seq<byte>, group: string)
    requires AreValuesOf(vs, s) && from < |vs| < from + 4 == from + |group|
    requires Holds(group, |vs| - from, s, from) && PackedSoFar(vs, from, done)
    ensures Pack(vs) == done + GroupOf(group)[..|vs| - from - 1]
  {
    var n := |vs| - from;
    ValueHeld(s, vs, from, group, n, 0);
    if n > 1 {
      ValueHeld(s, vs, from, group, n, 1);
    }
    if n > 2 {
      ValueHeld(s, vs, from, group, n, 2);
    }
    PackLast(vs, from, done, Sextet(group[0]), Sextet(group[1]), Sextet(group[2]), Sextet(group[3]));
  }

  lemma {:induction false} PrefixExact(s: string)
    ensures |Prefix(s)| <= |s| && Prefix(s) == s[..|Prefix(s)|] && (forall c :: c in Prefix(s) ==> IsBase64(c))
    ensures |Prefix(s)| < |s| ==> !IsBase64(s[|Prefix(s)|])
  {
    if s != [] && IsBase64(s[0]) {
      PrefixExact(s[1..]);
      assert s == [s[0]] + s[1..];
    }
  }

  lemma {:induction false} PrefixOfAppend(p: string, rest: string)
    requires forall c :: c in p ==> IsBase64(c)
    requires rest != [] ==> !IsBase64(rest[0])
    ensures Prefix(p + rest) == p
  {
    if p == [] {
      assert p + rest == rest;
    } else {
      assert (p + rest)[1..] == p[1..] + rest;
      PrefixOfAppend(p[1..], rest);
      assert p == [p[0]] + p[1..];
    }
  }

  lemma {:induction false} PackedLength(vs: seq<byte>)
    ensures |Pack(vs)| == 3 * (|vs| / 4) + if |vs| % 4 == 0 then 0 else |vs| % 4 - 1
  {
    if |vs| >= 4 {
      PackedLength(vs[4..]);
    }
  }

  lemma {:induction false} DecodedLength(s: string)
    ensures var n := |Prefix(s)|;
            |Decode(Prefix(s))| == 3 * (n / 4) + if n % 4 == 0 then 0 else n % 4 - 1
  {
    PackedLength(Values(Prefix(s)));
  }

  // ---- The reference encoder ------------------------------------------------------------------------------

  /** Table 1 of RFC 4648. */
  function Letter(v: byte): char
    requires v < 64
  {
    if v < 26 then 'A' + v as char
    else if v < 52 then 'a' + (v - 26) as char
    else if v < 62 then '0' + (v - 52) as char
    else if v == 62 then '+' else '/'
  }

  /** Three bytes cut into four values of six bits. */
  function Cut(b0: byte, b1: byte, b2: byte): (vs: seq<byte>)
    ensures |vs| == 4 && forall k :: 0 <= k < 4 ==> vs[k] < 64
  {
    [b0 / 4, b0 % 4 * 16 + b1 / 16, b1 % 16 * 4 + b2 / 64, b2 % 64]
  }

  /** A short last group is filled up with zero bits, and the values that hold no data bit are left out. */
  function Unpack(bs: seq<byte>): (vs: seq<byte>)
    ensures forall k :: 0 <= k < |vs| ==> vs[k] < 64
  {
    if bs == [] then []
    else if |bs| == 1 then Cut(bs[0], 0, 0)[..2]
    else if |bs| == 2 then Cut(bs[0], bs[1], 0)[..3]
    else Cut(bs[0], bs[1], bs[2]) + Unpack(bs[3..])
  }

  function Spell(vs: seq<byte>): string
    requires forall k :: 0 <= k < |vs| ==> vs[k] < 64
  {
    if vs == [] then [] else [Letter(vs[0])] + Spell(vs[1..])
  }

  function Encode(bs: seq<byte>): string {
    Spell(Unpack(bs))
  }

  function Padding(n: nat): string {
    if n % 3 == 0 then "" else if n % 3 == 1 then "==" else "="
  }

  lemma AlphabetAt(k: nat)
    requires k < 64
    ensures ALPHABET[k] == Letter(k)
  {
  }

  lemma LetterInjective(k: nat, v: nat)
    requires k < 64 && v < 64 && ALPHABET[k] == ALPHABET[v]
    ensures k == v
  {
    AlphabetAt(k);
    AlphabetAt(v);
  }

  lemma SextetOfLetter(v: byte)
    requires v < 64
    ensures Sextet(Letter(v)) == v && IsBase64(Letter(v))
  {
    AlphabetAt(v);
    LetterInjective(Find(ALPHABET, Letter(v), 0), v);
  }

  lemma FirstComesBack(h0: nat, l0: nat, h1: nat)
    requires h0 < 64 && l0 < 4 && h1 < 16
    ensures First(h0, l0 * 16 + h1) == h0 * 4 + l0
  {
    assert (l0 * 16 + h1) / 16 == l0;
  }

  lemma SecondComesBack(l0: nat, h1: nat, l1: nat, h2: nat)
    requires l0 < 4 && h1 < 16 && l1 < 16 && h2 < 4
    ensures Second(l0 * 16 + h1, l1 * 4 + h2) == h1 * 16 + l1
  {
    assert (l0 * 16 + h1) % 16 == h1;
    assert (l1 * 4 + h2) / 4 == l1;
  }

  lemma ThirdComesBack(l1: nat, h2: nat, l2: nat)
    requires l1 < 16 && h2 < 4 && l2 < 64
    ensures Third(l1 * 4 + h2, l2) == h2 * 64 + l2
  {
    assert (l1 * 4 + h2) % 4 == h2;
  }

  lemma {:induction false} ValuesOfSpell(vs: seq<byte>)
    requires forall k :: 0 <= k < |vs| ==> vs[k] < 64
    ensures Values(Spell(vs)) == vs && forall c :: c in Spell(vs) ==> IsBase64(c)
  {
    if vs != [] {
      SextetOfLetter(vs[0]);
      ValuesOfSpell(vs[1..]);
      assert Spell(vs)[1..] == Spell(vs[1..]);
      assert vs == [vs[0]] + vs[1..];
    }
  }

  lemma PackGroup(vs: seq<byte>, rest: seq<byte>)
    requires |vs| == 4
    ensures Pack(vs + rest) == Group(vs[0], vs[1], vs[2], vs[3]) + Pack(rest)
    ensures Pack(vs[..2]) == Group(vs[0], vs[1], vs[2], vs[3])[..1]
    ensures Pack(vs[..3]) == Group(vs[0], vs[1], vs[2], vs[3])[..2]
  {
    assert (vs + rest)[4..] == rest;
  }

  lemma GroupOfParts(h0: byte, l0: byte, h1: byte, l1: byte, h2: byte, l2: byte)
    requires h0 < 64 && l0 < 4 && h1 < 16 && l1 < 16 && h2 < 4 && l2 < 64
    ensures Group(h0, l0 * 16 + h1, l1 * 4 + h2, l2) == [h0 * 4 + l0, h1 * 16 + l1, h2 * 64 + l2]
  {
    FirstComesBack(h0, l0, h1);
    SecondComesBack(l0, h1, l1, h2);
    ThirdComesBack(l1, h2, l2);
  }

  lemma CutParts(b0: byte, b1: byte, b2: byte)
    returns (h0: byte, l0: byte, h1: byte, l1: byte, h2: byte, l2: byte)
    ensures h0 < 64 && l0 < 4 && h1 < 16 && l1 < 16 && h2 < 4 && l2 < 64
    ensures [b0, b1, b2] == [h0 * 4 + l0, h1 * 16 + l1, h2 * 64 + l2]
    ensures Cut(b0, b1, b2) == [h0, l0 * 16 + h1, l1 * 4 + h2, l2]
  {
    h0, l0, h1, l1, h2, l2 := b0 / 4, b0 % 4, b1 / 16, b1 % 16, b2 / 64, b2 % 64;
  }

  lemma {:induction false} GroupOfCut(b0: byte, b1: byte, b2: byte, vs: seq<byte>)
    requires vs == Cut(b0, b1, b2)
    ensures |vs| == 4 && Group(vs[0], vs[1], vs[2], vs[3]) == [b0, b1, b2]
  {
    var h0, l0, h1, l1, h2, l2 := CutParts(b0, b1, b2);
    GroupOfParts(h0, l0, h1, l1, h2, l2);
    assert vs[0] == h0 && vs[1] == l0 * 16 + h1 && vs[2] == l1 * 4 + h2 && vs[3] == l2;
  }

  lemma {:induction false} PackCut(b0: byte, b1: byte, b2: byte, rest: seq<byte>)
    ensures Pack(Cut(b0, b1, b2)[..2]) == [b0] && Pack(Cut(b0, b1, b2)[..3]) == [b0, b1]
    ensures Pack(Cut(b0, b1, b2) + rest) == [b0, b1, b2] + Pack(rest)
  {
    var vs := Cut(b0, b1, b2);
    GroupOfCut(b0, b1, b2, vs);
    PackGroup(vs, rest);
    assert [b0, b1, b2][..1] == [b0] && [b0, b1, b2][..2] == [b0, b1];
  }

  lemma UnpackedBy(bs: seq<byte>) returns (b1: byte, b2: byte, n: nat, rest: seq<byte>)
    requires bs != []
    ensures |bs| < 3 ==> n == |bs| + 1 && Unpack(bs) == Cut(bs[0], b1, b2)[..n]
    ensures |bs| >= 3 ==> rest == bs[3..] && Unpack(bs) == Cut(bs[0], b1, b2) + Unpack(rest)
    ensures bs == [bs[0], b1, b2][..if |bs| < 3 then |bs| else 3] + if |bs| < 3 then [] else rest
  {
    b1 := if |bs| > 1 then bs[1] else 0;
    b2 := if |bs| > 2 then bs[2] else 0;
    n := if |bs| < 3 then |bs| + 1 else 0;
    rest := if |bs| < 3 then [] else bs[3..];
  }

  lemma {:induction false} PackUnpack(bs: seq<byte>)
    ensures Pack(Unpack(bs)) == bs
  {
    if bs != [] {
      var b1, b2, n, rest := UnpackedBy(bs);
      if |bs| >= 3 {
        PackUnpack(rest);
      }
      PackCut(bs[0], b1, b2, Unpack(rest));
    }
  }

  lemma {:induction false} DecodesBack(bs: seq<byte>, rest: string)
    requires rest == [] || !IsBase64(rest[0])
    ensures Decode(Prefix(Encode(bs) + rest)) == bs
  {
    ValuesOfSpell(Unpack(bs));
    PackUnpack(bs);
    PrefixOfAppend(Encode(bs), rest);
  }

  /** Every byte string comes back, with or without padding, and whatever follows that is not in the alphabet. */
  lemma {:induction false} RoundTrip(bs: seq<byte>, rest: string)
    requires rest == [] || !IsBase64(rest[0])
    ensures Decode(Prefix(Encode(bs) + rest)) == bs
    ensures Decode(Prefix(Encode(bs) + Padding(|bs|))) == bs
  {
    DecodesBack(bs, rest);
    DecodesBack(bs, Padding(|bs|));
  }
}
