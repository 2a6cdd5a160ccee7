/** Device-mode functions as masks and as comma-separated name lists.  The two conversions are stated over any table
    of clean names with one-bit masks, and used with the service's own. */
module FunctionNames {
  import opened UsbTypes
  import opened KeyOrder

  /** A 32-bit mask as the set of its bit numbers: `|` is union, `&` is intersection. */
  type Mask = set<nat>
  type Table = map<string, Mask>

  const FUNCTION_NONE: Mask := {}

  /** The names and masks of UsbSrvSupport, and the mask of those that may be set. */
  const FUNCTION_MAPPING_N2C: Table := map[
    "none" := {}, "acm" := {0}, "ecm" := {1}, "hdc" := {2}, "mtp" := {3}, "ptp" := {4}, "rndis" := {5},
    "ncm" := {8}, "storage" := {9}, "devmode_auth" := {12}]

  const FUNCTION_SETTABLE: Mask := {0, 1, 2, 3, 4, 5, 8, 9}

  predicate IsMask(m: Mask) {
    forall b :: b in m ==> b < 32
  }

  function Power(b: nat): nat {
    if b == 0 then 1 else 2 * Power(b - 1)
  }

  /** The number that the bits of a mask below `n` stand for. */
  function Low(m: Mask, n: nat): nat {
    if n == 0 then 0 else Low(m, n - 1) + if n - 1 in m then Power(n - 1) else 0
  }

  function Number(m: Mask): nat {
    Low(m, 32)
  }

  /** The keys in the order a walk over the map meets them. */
  const KEY_ORDER: seq<string> :=
    ["acm", "devmode_auth", "ecm", "hdc", "mtp", "ncm", "none", "ptp", "rndis", "storage"]

  predicate IsSettableFunctions(funcs: Mask) {
    funcs == FUNCTION_NONE || funcs - FUNCTION_SETTABLE == {}
  }

  predicate OneBit(m: Mask) {
    m == {} || exists b :: b in m && m == {b}
  }

  predicate CleanName(name: string) {
    name != "" && ',' !in name
  }

  ghost predicate CleanTable(t: Table) {
    && (forall n :: n in t ==> CleanName(n) && OneBit(t[n]))
    && "none" in t && t["none"] == FUNCTION_NONE
  }

  ghost predicate Listed(t: Table, names: seq<string>) {
    forall n :: n in names ==> n in t
  }

  function Join(names: seq<string>): string {
    if names == [] then ""
    else if |names| == 1 then names[0]
    else names[0] + "," + Join(names[1..])
  }

  // ---- Name list to mask ----------------------------------------------------------------------------------

  /** `find(",", from)`, with the length for "not found". */
  function Comma(s: string, from: nat): (k: nat)
    requires from <= |s|
    ensures from <= k <= |s| && (k < |s| ==> s[k] == ',') && forall j :: from <= j < k ==> s[j] != ','
    decreases |s| - from
  {
    if from == |s| || s[from] == ',' then from else Comma(s, from + 1)
  }

  /** The items between commas; nothing after a last comma is not an item. */
  function Items(s: string): seq<string>
    decreases |s|
  {
    if s == "" then []
    else
      var k := Comma(s, 0);
      if k == |s| then [s] else [s[..k]] + Items(s[k + 1..])
  }

  function OrItems(t: Table, items: seq<string>): Option<Mask> {
    if items == [] then Some({})
    else
      var front, last := OrItems(t, items[..|items| - 1]), items[|items| - 1];
      if front.Some? && last in t then Some(front.value + t[last]) else None
  }

  function Parse(t: Table, s: string): Option<Mask> {
    if s == "none" then Some(FUNCTION_NONE)
    else if s == "" then None
    else OrItems(t, Items(s))
  }

  // ---- Mask to name list ----------------------------------------------------------------------------------

  /** The names whose bits are in `f`, in walking order. */
  function Picked(t: Table, names: seq<string>, f: Mask): seq<string>
    requires forall n :: n in names ==> n in t
  {
    if names == [] then []
    else
      var front, last := Picked(t, names[..|names| - 1], f), names[|names| - 1];
      if f * t[last] != {} then front + [last] else front
  }

  function Print(t: Table, names: seq<string>, settable: Mask, f: Mask): string
    requires forall n :: n in names ==> n in t
  {
    if Number(f) <= Number(FUNCTION_NONE) || Number(f) > Number(settable) then "none" else Join(Picked(t, names, f))
  }

  // ---- The two methods ------------------------------------------------------------------------------------

  /** `invalidValue` is the number behind UEC_SERVICE_INVALID_VALUE, whose base lies outside the repository. */
  method ConvertFromString(t: Table, strFun: string, invalidValue: Mask) returns (ret: Mask)
    ensures ret == match Parse(t, strFun) case Some(m) => m case None => invalidValue
  {
    if strFun == "none" {
      return FUNCTION_NONE;
    }
    if strFun == "" {
      return invalidValue;
    }
    var vModeStr := Split(strFun);
    ret := FUNCTION_NONE;
    for n := 0 to |vModeStr|
      invariant OrItems(t, vModeStr[..n]) == Some(ret)
    {
      assert vModeStr[..n + 1][..n] == vModeStr[..n];
      if vModeStr[n] !in t {
        OrItemsNone(t, vModeStr, n);
        return invalidValue;
      }
      ret := ret + t[vModeStr[n]];
    }
    assert vModeStr[..|vModeStr|] == vModeStr;
  }

  method Split(strFun: string) returns (vModeStr: seq<string>)
    ensures vModeStr == Items(strFun)
  {
    vModeStr := [];
    var pos := 0;
    SplitStarts(strFun);
    while pos < |strFun|
      invariant 0 <= pos <= |strFun| && SoFar(strFun, vModeStr, pos)
    {
      var findPos := Comma(strFun, pos);
      SplitOn(strFun, vModeStr, pos);
      if findPos == |strFun| {
        vModeStr := vModeStr + [strFun[pos..]];
        return;
      }
      vModeStr := vModeStr + [strFun[pos..findPos]];
      pos := findPos + 1;
    }
    SplitEnds(strFun, vModeStr);
  }

  /** The items before `pos` are in `done`. */
  ghost predicate SoFar(s: string, done: seq<string>, pos: nat)
    requires pos <= |s|
  {
    Items(s) == done + Items(s[pos..])
  }

  lemma SplitStarts(s: string)
    ensures SoFar(s, [], 0)
  {
    assert s[0..] == s;
  }

  lemma SplitOn(s: string, done: seq<string>, pos: nat)
    requires pos < |s| && SoFar(s, done, pos)
    ensures var k := Comma(s, pos);
            if k == |s| then Items(s) == done + [s[pos..]] else SoFar(s, done + [s[pos..k]], k + 1)
  {
    var k := Comma(s, pos);
    ItemsFrom(s, pos);
    if k < |s| {
      OneMoreItem(done, s[pos..k], Items(s[k + 1..]));
    }
  }

  lemma OneMoreItem(done: seq<string>, item: string, rest: seq<string>)
    ensures done + ([item] + rest) == done + [item] + rest
  {
  }

  lemma SplitEnds(s: string, done: seq<string>)
    requires SoFar(s, done, |s|)
    ensures Items(s) == done
  {
    assert s[|s|..] == "" && done + [] == done;
  }

  method ConvertToString(t: Table, names: seq<string>, settable: Mask, func: Mask) returns (stream: string)
    requires Listed(t, names)
    ensures stream == Print(t, names, settable, func)
  {
    if Number(func) <= Number(FUNCTION_NONE) || Number(func) > Number(settable) {
      return "none";
    }
    stream := "";
    var flag := false;
    for n := 0 to |names|
      invariant stream == Join(Picked(t, names[..n], func))
      invariant flag <==> Picked(t, names[..n], func) != []
    {
      assert names[..n + 1][..n] == names[..n];
      if func * t[names[n]] != {} {
        JoinSnoc(Picked(t, names[..n], func), names[n]);
        if flag {
          stream := stream + ",";
        }
        stream := stream + names[n];
        flag := true;
      }
    }
    assert names[..|names|] == names;
  }

  lemma CommaIs(s: string, k: nat)
    requires k <= |s| && (k < |s| ==> s[k] == ',') && ',' !in s[..k]
    ensures Comma(s, 0) == k
  {
    var c := Comma(s, 0);
    assert forall j :: 0 <= j < k ==> s[..k][j] == s[j] && s[..k][j] in s[..k];
    assert k <= c;
  }

  lemma ItemsFrom(s: string, pos: nat)
    requires pos < |s|
    ensures var k := Comma(s, pos);
            Items(s[pos..]) == if k == |s| then [s[pos..]] else [s[pos..k]] + Items(s[k + 1..])
  {
    var k := Comma(s, pos);
    assert forall j :: 0 <= j < k - pos ==> s[pos..][j] == s[pos + j];
    CommaIs(s[pos..], k - pos);
    if k < |s| {
      assert s[pos..][..k - pos] == s[pos..k] && s[pos..][k - pos + 1..] == s[k + 1..];
    }
  }

  lemma {:induction false} OrItemsNone(t: Table, items: seq<string>, n: nat)
    requires n < |items| && items[n] !in t
    ensures OrItems(t, items).None?
  {
    if n < |items| - 1 {
      OrItemsNone(t, items[..|items| - 1], n);
    }
  }

  lemma {:induction false} JoinSnoc(names: seq<string>, name: string)
    ensures Join(names + [name]) == if names == [] then name else Join(names) + "," + name
  {
    if |names| == 0 {
      assert names + [name] == [name];
    } else {
      JoinSnoc(names[1..], name);
      assert (names + [name])[1..] == names[1..] + [name];
      if |names| > 1 {
        assert names[0] + "," + (Join(names[1..]) + "," + name) == names[0] + "," + Join(names[1..]) + "," + name;
      }
    }
  }

  // ---- What a name list means -----------------------------------------------------------------------------

  ghost predicate CleanNames(names: seq<string>) {
    forall n :: n in names ==> CleanName(n)
  }

  /** The first item of a list is what stands before the first comma. */
  lemma FirstItem(name: string, rest: string)
    requires CleanName(name)
    ensures Items(name) == [name]
    ensures Items(name + "," + rest) == [name] + Items(rest)
  {
    var s := name + "," + rest;
    assert name[..|name|] == name && s[..|name|] == name && s[|name| + 1..] == rest;
    CommaIs(name, |name|);
    CommaIs(s, |name|);
  }

  lemma LastItem(name: string)
    requires CleanName(name)
    ensures Items(name + ",") == [name]
  {
    FirstItem(name, "");
    assert name + "," + "" == name + ",";
    assert Items("") == [];
  }

  lemma CommaAfterRest(name: string, rest: string)
    ensures name + "," + rest + "," == name + "," + (rest + ",")
  {
  }

  /** A list is read back item by item, with or without a comma at the end. */
  lemma {:induction false} ItemsOfJoin(names: seq<string>)
    requires CleanNames(names) && names != []
    ensures Items(Join(names)) == names && Items(Join(names) + ",") == names
  {
    assert names[0] in names;
    if |names| == 1 {
      LastItem(names[0]);
    } else {
      assert CleanNames(names[1..]);
      ItemsOfJoin(names[1..]);
      FirstItem(names[0], Join(names[1..]));
      FirstItem(names[0], Join(names[1..]) + ",");
      CommaAfterRest(names[0], Join(names[1..]));
      assert [names[0]] + names[1..] == names;
    }
  }

  /** The mask of a list is made of exactly the bits of its names. */
  lemma {:induction false} OrIsUnion(t: Table, items: seq<string>)
    requires Listed(t, items)
    ensures OrItems(t, items).Some?
    ensures forall b :: b in OrItems(t, items).value <==> exists n :: n in items && b in t[n]
  {
    if items != [] {
      var front, last := items[..|items| - 1], items[|items| - 1];
      assert items == front + [last];
      OrIsUnion(t, front);
    }
  }

  /** Order and repetition do not matter. */
  lemma SameNamesSameMask(t: Table, a: seq<string>, b: seq<string>)
    requires Listed(t, a) && Listed(t, b) && forall n :: n in a <==> n in b
    ensures OrItems(t, a) == OrItems(t, b)
  {
    OrIsUnion(t, a);
    OrIsUnion(t, b);
    assert OrItems(t, a).value == OrItems(t, b).value;
  }

  lemma NoneIsOneItem()
    ensures Items("none") == ["none"]
  {
    assert CleanName("none");
    FirstItem("none", "");
  }

  /** Any list of known names means the OR of their masks, with or without a comma at the end. */
  lemma {:induction false} ListParses(t: Table, names: seq<string>)
    requires CleanTable(t) && Listed(t, names) && names != []
    ensures Parse(t, Join(names)) == Parse(t, Join(names) + ",") == OrItems(t, names)
  {
    ItemsOfJoin(names);
    NoneIsOneItem();
    if Join(names) == "none" {
      assert names == ["none"] && names[..0] == [];
      assert OrItems(t, []).value + t["none"] == FUNCTION_NONE;
    }
    var s := Join(names) + ",";
    assert s[|s| - 1] == ',';
    assert Items("") == [];
  }

  lemma {:induction false} JoinOfItems(s: string)
    requires s != ""
    ensures Items(s) != [] && (s == Join(Items(s)) || s == Join(Items(s)) + ",")
    decreases |s|
  {
    var k := Comma(s, 0);
    if k < |s| {
      assert s == s[..k] + "," + s[k + 1..];
      if s[k + 1..] != "" {
        JoinOfItems(s[k + 1..]);
        assert Items(s)[1..] == Items(s[k + 1..]);
        var rest := Join(Items(s)[1..]);
        assert s[..k] + "," + (rest + ",") == s[..k] + "," + rest + ",";
      }
    }
  }

  lemma {:induction false} OrItemsKnown(t: Table, items: seq<string>)
    requires OrItems(t, items).Some?
    ensures Listed(t, items)
  {
    if items != [] {
      OrItemsKnown(t, items[..|items| - 1]);
      assert items == items[..|items| - 1] + [items[|items| - 1]];
    }
  }

  ghost predicate IsList(t: Table, s: string, names: seq<string>) {
    Listed(t, names) && names != [] && (s == Join(names) || s == Join(names) + ",")
  }

  /** Exactly the comma-joined lists of known names are accepted. */
  lemma AcceptedIff(t: Table, s: string)
    requires CleanTable(t)
    ensures Parse(t, s).Some? <==> exists names :: IsList(t, s, names)
  {
    if Parse(t, s).Some? {
      if s == "none" {
        assert IsList(t, s, ["none"]);
      } else {
        JoinOfItems(s);
        OrItemsKnown(t, Items(s));
        assert IsList(t, s, Items(s));
      }
    }
    if exists names :: IsList(t, s, names) {
      var names :| IsList(t, s, names);
      ListParses(t, names);
      OrIsUnion(t, names);
    }
  }

  // ---- Printing and reading back --------------------------------------------------------------------------

  lemma {:induction false} PickedMask(t: Table, names: seq<string>, f: Mask)
    requires CleanTable(t) && Listed(t, names)
    ensures OrItems(t, names).Some? && Listed(t, Picked(t, names, f))
    ensures OrItems(t, Picked(t, names, f)) == Some(f * OrItems(t, names).value)
  {
    if names == [] {
      assert f * {} == {};
    } else {
      var front, last := names[..|names| - 1], names[|names| - 1];
      assert names == front + [last];
      PickedMask(t, front, f);
      if f * t[last] != {} {
        var b :| b in t[last] && t[last] == {b};
        assert f * t[last] == t[last];
      }
      var covered := f * OrItems(t, front).value;
      assert f * (OrItems(t, front).value + t[last]) == covered + f * t[last];
      assert f * t[last] == {} ==> covered + f * t[last] == covered;
      var p := Picked(t, front, f);
      assert (p + [last])[..|p|] == p;
    }
  }

  /** Printing a mask and reading it back gives the part of it that the names cover, or nothing. */
  lemma PrintedReadsBack(t: Table, names: seq<string>, settable: Mask, f: Mask)
    requires CleanTable(t) && Listed(t, names)
    ensures OrItems(t, names).Some?
    ensures var back, covered := Parse(t, Print(t, names, settable, f)), f * OrItems(t, names).value;
            if Number(f) == 0 || Number(f) > Number(settable) then back == Some({})
            else back == Some(covered) || (back == None && covered == {})
  {
    NumberZeroIff({}, 32);
    PickedMask(t, names, f);
    if Picked(t, names, f) != [] {
      ListParses(t, Picked(t, names, f));
    }
  }

  lemma {:induction false} NumberZeroIff(m: Mask, n: nat)
    ensures Low(m, n) == 0 <==> forall b :: b in m ==> b >= n
  {
    if n > 0 {
      NumberZeroIff(m, n - 1);
      PowerPositive(n - 1);
    }
  }

  lemma {:induction false} PowerPositive(b: nat)
    ensures Power(b) > 0
  {
    if b > 0 {
      PowerPositive(b - 1);
    }
  }

  lemma {:induction false} LowMonotone(m: Mask, m': Mask, n: nat)
    requires m <= m'
    ensures Low(m, n) <= Low(m', n)
  {
    if n > 0 {
      LowMonotone(m, m', n - 1);
    }
  }

  lemma {:induction false} LowBelow(m: Mask, n: nat)
    ensures Low(m, n) < Power(n)
  {
    if n > 0 {
      LowBelow(m, n - 1);
    }
  }

  lemma {:induction false} LowWithBit(m: Mask, b: nat, n: nat)
    requires b < n
    ensures b in m ==> Low(m, n) >= Power(b)
    ensures (forall c :: c in m ==> c < b) ==> Low(m, n) == Low(m, b)
  {
    if b < n - 1 {
      LowWithBit(m, b, n - 1);
    }
  }

  /** A mask with a bit above all bits of another is the greater number. */
  lemma HigherBitIsGreater(m: Mask, m': Mask, b: nat)
    requires b in m && b < 32 && forall c :: c in m' ==> c < b
    ensures Number(m) > Number(m')
  {
    LowWithBit(m, b, 32);
    LowWithBit(m', b, 32);
    LowBelow(m', b);
  }

  lemma ServiceTable()
    ensures CleanTable(FUNCTION_MAPPING_N2C) && Listed(FUNCTION_MAPPING_N2C, KEY_ORDER)
  {
    assert forall k :: k in {0, 1, 2, 3, 4, 5, 8, 9, 12} ==> OneBit({k});
    forall n | n in FUNCTION_MAPPING_N2C ensures CleanName(n) && OneBit(FUNCTION_MAPPING_N2C[n]) {
      var m := FUNCTION_MAPPING_N2C[n];
      assert m in {{}, {0}, {1}, {2}, {3}, {4}, {5}, {8}, {9}, {12}};
    }
  }

  lemma NameOfBit(b: nat) returns (n: string)
    requires Listed(FUNCTION_MAPPING_N2C, KEY_ORDER) && b in FUNCTION_SETTABLE + {12}
    ensures n in KEY_ORDER && n in FUNCTION_MAPPING_N2C && b in FUNCTION_MAPPING_N2C[n]
  {
    n := if b == 0 then "acm" else if b == 1 then "ecm" else if b == 2 then "hdc" else if b == 3 then "mtp"
         else if b == 4 then "ptp" else if b == 5 then "rndis" else if b == 8 then "ncm" else if b == 9 then "storage"
         else "devmode_auth";
    assert FUNCTION_MAPPING_N2C[n] == {b};
  }

  lemma BitsOfName(n: string)
    requires n in FUNCTION_MAPPING_N2C
    ensures FUNCTION_MAPPING_N2C[n] <= FUNCTION_SETTABLE + {12}
  {
  }

  /** The keys cover the settable functions and one more. */
  lemma ServiceMasks()
    requires Listed(FUNCTION_MAPPING_N2C, KEY_ORDER)
    ensures OrItems(FUNCTION_MAPPING_N2C, KEY_ORDER) == Some(FUNCTION_SETTABLE + {12})
  {
    OrIsUnion(FUNCTION_MAPPING_N2C, KEY_ORDER);
    var all := OrItems(FUNCTION_MAPPING_N2C, KEY_ORDER).value;
    forall b | b in all ensures b in FUNCTION_SETTABLE + {12} {
      var n :| n in KEY_ORDER && b in FUNCTION_MAPPING_N2C[n];
      BitsOfName(n);
    }
    forall b: nat | b in FUNCTION_SETTABLE + {12} ensures b in all {
      var n := NameOfBit(b);
    }
    assert all == FUNCTION_SETTABLE + {12};
  }

  /** When the names cover the settable bits and one bit above them, printing and reading back gives the mask again
      exactly for the masks of settable bits. */
  lemma PrintedReadsBackIff(t: Table, names: seq<string>, settable: Mask, top: nat, f: Mask)
    requires IsMask(f) && CleanTable(t) && Listed(t, names)
    requires OrItems(t, names) == Some(settable + {top}) && top < 32 && forall c :: c in settable ==> c < top
    ensures Parse(t, Print(t, names, settable, f)) == Some(f) <==> f <= settable
  {
    PrintedReadsBack(t, names, settable, f);
    NumberZeroIff(f, 32);
    if f <= settable {
      LowMonotone(f, settable, 32);
      assert f * (settable + {top}) == f;
      assert Number(f) == 0 ==> f == {};
    } else if top in f {
      HigherBitIsGreater(f, settable, top);
    } else {
      assert f * (settable + {top}) != f;
    }
  }

  /** The bit of each name of UsbSrvSupport. */
  function BitOf(n: string): Option<nat> {
    if n == "acm" then Some(0) else if n == "ecm" then Some(1) else if n == "hdc" then Some(2)
    else if n == "mtp" then Some(3) else if n == "ptp" then Some(4) else if n == "rndis" then Some(5)
    else if n == "ncm" then Some(8) else if n == "storage" then Some(9) else if n == "devmode_auth" then Some(12)
    else None
  }

  lemma MaskOfName(n: string)
    ensures n in FUNCTION_MAPPING_N2C <==> n == "none" || BitOf(n).Some?
    ensures n in FUNCTION_MAPPING_N2C ==>
              FUNCTION_MAPPING_N2C[n] == match BitOf(n) case Some(b) => {b} case None => {}
  {
  }

  /** `s` lists these names, with or without a comma at the end, each of them "none" or one of the nine. */
  ghost predicate IsServiceList(s: string, names: seq<string>) {
    && names != [] && (s == Join(names) || s == Join(names) + ",")
    && forall n :: n in names ==> n == "none" || BitOf(n).Some?
  }

  predicate Sets(names: seq<string>, b: nat) {
    exists n :: n in names && BitOf(n) == Some(b)
  }

  lemma NamesSet(names: seq<string>)
    requires Listed(FUNCTION_MAPPING_N2C, names)
    ensures OrItems(FUNCTION_MAPPING_N2C, names).Some?
    ensures forall b: nat :: b in OrItems(FUNCTION_MAPPING_N2C, names).value <==> Sets(names, b)
  {
    OrIsUnion(FUNCTION_MAPPING_N2C, names);
    forall n | n in names
      ensures FUNCTION_MAPPING_N2C[n] == match BitOf(n) case Some(b) => {b} case None => {}
    {
      MaskOfName(n);
    }
  }

  lemma NamesMean(names: seq<string>, m: Mask)
    requires Listed(FUNCTION_MAPPING_N2C, names)
    ensures OrItems(FUNCTION_MAPPING_N2C, names) == Some(m) <==> forall b: nat :: b in m <==> Sets(names, b)
  {
    NamesSet(names);
    var all := OrItems(FUNCTION_MAPPING_N2C, names).value;
    if forall b: nat :: b in m <==> Sets(names, b) {
      forall b: nat ensures b in m <==> b in all {
        assert b in m <==> Sets(names, b);
      }
      assert m == all;
    }
  }

  lemma ServiceListIs(s: string, names: seq<string>)
    ensures IsList(FUNCTION_MAPPING_N2C, s, names) <==> IsServiceList(s, names)
  {
    forall n | n in names ensures n in FUNCTION_MAPPING_N2C <==> n == "none" || BitOf(n).Some? {
      MaskOfName(n);
    }
  }

  /** A text is accepted if and only if it lists such names, and then sets exactly their bits. */
  lemma ServiceListMeans(s: string, m: Mask)
    ensures Parse(FUNCTION_MAPPING_N2C, s) == Some(m) <==>
            exists names :: IsServiceList(s, names) && forall b: nat :: b in m <==> Sets(names, b)
  {
    ServiceTable();
    AcceptedIff(FUNCTION_MAPPING_N2C, s);
    forall names | IsList(FUNCTION_MAPPING_N2C, s, names)
      ensures Parse(FUNCTION_MAPPING_N2C, s) == OrItems(FUNCTION_MAPPING_N2C, names)
    {
      ListParses(FUNCTION_MAPPING_N2C, names);
    }
    if Parse(FUNCTION_MAPPING_N2C, s) == Some(m) {
      var names :| IsList(FUNCTION_MAPPING_N2C, s, names);
      ServiceListIs(s, names);
      NamesMean(names, m);
    }
    if names :| IsServiceList(s, names) && forall b: nat :: b in m <==> Sets(names, b) {
      ServiceListIs(s, names);
      NamesMean(names, m);
    }
  }

  /** The keys are walked in the order of the map. */
  lemma KeysInOrder(k: nat)
    requires k < 9
    ensures |KEY_ORDER| == 10 && KEY_ORDER[k] != KEY_ORDER[k + 1] && Leq(KEY_ORDER[k], KEY_ORDER[k + 1])
  {
  }

  /** The service's conversions undo each other exactly on the settable masks. */
  lemma ServiceRoundTripIff(f: Mask)
    requires IsMask(f)
    ensures Listed(FUNCTION_MAPPING_N2C, KEY_ORDER)
    ensures Parse(FUNCTION_MAPPING_N2C, Print(FUNCTION_MAPPING_N2C, KEY_ORDER, FUNCTION_SETTABLE, f)) == Some(f)
            <==> f <= {0, 1, 2, 3, 4, 5, 8, 9}
  {
    ServiceTable();
    ServiceMasks();
    PrintedReadsBackIff(FUNCTION_MAPPING_N2C, KEY_ORDER, FUNCTION_SETTABLE, 12, f);
  }
}
