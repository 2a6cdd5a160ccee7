/** The two pattern tables of the type policy.  A pattern names a base class and, where it does not say "any", a
    subclass and a protocol. No class triple falls under two patterns of one table, so it does not matter in which
    order an unordered map yields them. */
module TypeTables {
  import opened UsbTypes

  datatype InterfaceType =
    DefinedByInterface | Storage | Audio | Hid | Physical | Image | Printer | Communication | FullSpeedHub |
    FullSpeedHubS | FullSpeedHubM | CdcData | SmartCard | ContentSecurtiy | Video | PersonalHealthcare | Avcontrol |
    AvvStreaming | AvaStreaming | Billboard | TypecBridge | Bdp | MctpMana1 | MctpMana2 | MctpHost1 | MctpHost2 | I3c |
    Diagnostic1 | Diagnostic2 | Diagnostic3 | Diagnostic4 | Diagnostic5 | Diagnostic6 | Diagnostic7 | Diagnostic8 |
    Diagnostic9 | Diagnostic10 | Diagnostic11 | Diagnostic12 | Diagnostic13 | Diagnostic14 | WirlessController1 |
    WirlessController2 | WirlessController3 | WirlessController4 | WirlessController5 | WirlessController6 |
    WirlessController7 | Miscellaneous1 | Miscellaneous2 | Miscellaneous3 | Miscellaneous4 | Miscellaneous5 |
    Miscellaneous6 | Miscellaneous7 | Miscellaneous8 | Miscellaneous9 | Miscellaneous10 | Miscellaneous11 |
    Miscellaneous12 | Miscellaneous13 | Miscellaneous14 | Miscellaneous15 | Miscellaneous16 | Miscellaneous17 |
    Miscellaneous18 | Miscellaneous19 | ApplicationSpe1 | ApplicationSpe2 | ApplicationSpe3 | ApplicationSpe4 |
    VendorSpecific

  const ANY: int := -1

  datatype Pattern = Pattern(baseClass: int, subClass: int, protocol: int)

  type TypeTable = map<InterfaceType, Pattern>

  predicate Covers(p: Pattern, baseClass: int, subClass: int, protocol: int) {
    p.baseClass == baseClass && (p.subClass == ANY || p.subClass == subClass)
    && (p.protocol == ANY || p.protocol == protocol)
  }

  /** d_typeMap: what devices are matched against. */
  function DevicePattern(t: InterfaceType): Option<Pattern> {
    match t
    case DefinedByInterface => Some(Pattern(0, 0, 0))
    case Communication => Some(Pattern(2, ANY, ANY))
    case FullSpeedHub => Some(Pattern(9, 0, 0))
    case FullSpeedHubS => Some(Pattern(9, 0, 1))
    case FullSpeedHubM => Some(Pattern(9, 0, 2))
    case Billboard => Some(Pattern(17, 0, 0))
    case Diagnostic1 => Some(Pattern(220, 1, 1))
    case Diagnostic2 => Some(Pattern(220, 2, 0))
    case Diagnostic3 => Some(Pattern(220, 2, 1))
    case Diagnostic4 => Some(Pattern(220, 3, 0))
    case Diagnostic5 => Some(Pattern(220, 3, 1))
    case Diagnostic6 => Some(Pattern(220, 4, 0))
    case Diagnostic7 => Some(Pattern(220, 4, 1))
    case Diagnostic8 => Some(Pattern(220, 5, 0))
    case Diagnostic9 => Some(Pattern(220, 5, 1))
    case Diagnostic10 => Some(Pattern(220, 6, 0))
    case Diagnostic11 => Some(Pattern(220, 6, 1))
    case Diagnostic12 => Some(Pattern(220, 7, 0))
    case Diagnostic13 => Some(Pattern(220, 7, 1))
    case Diagnostic14 => Some(Pattern(220, 8, 0))
    case Miscellaneous1 => Some(Pattern(239, 1, 1))
    case Miscellaneous2 => Some(Pattern(239, 1, 2))
    case Miscellaneous3 => Some(Pattern(239, 2, 1))
    case Miscellaneous4 => Some(Pattern(239, 2, 2))
    case VendorSpecific => Some(Pattern(255, ANY, ANY))
    case _ => None
  }

  // g_typeMap: what interfaces are matched against, in six parts.

  function CommonPattern(t: InterfaceType): Option<Pattern> {
    match t
    case Audio => Some(Pattern(1, ANY, ANY))
    case Communication => Some(Pattern(2, ANY, ANY))
    case Hid => Some(Pattern(3, ANY, ANY))
    case Physical => Some(Pattern(5, ANY, ANY))
    case Image => Some(Pattern(6, 1, 1))
    case Printer => Some(Pattern(7, ANY, ANY))
    case Storage => Some(Pattern(8, ANY, ANY))
    case CdcData => Some(Pattern(10, ANY, ANY))
    case SmartCard => Some(Pattern(11, ANY, ANY))
    case ContentSecurtiy => Some(Pattern(13, 0, 0))
    case Video => Some(Pattern(14, ANY, ANY))
    case PersonalHealthcare => Some(Pattern(15, ANY, ANY))
    case _ => None
  }

  function BridgePattern(t: InterfaceType): Option<Pattern> {
    match t
    case Avcontrol => Some(Pattern(16, 1, 0))
    case AvvStreaming => Some(Pattern(16, 2, 0))
    case AvaStreaming => Some(Pattern(16, 3, 0))
    case TypecBridge => Some(Pattern(18, 0, 0))
    case Bdp => Some(Pattern(19, 0, 0))
    case MctpMana1 => Some(Pattern(20, 0, 1))
    case MctpMana2 => Some(Pattern(20, 0, 2))
    case MctpHost1 => Some(Pattern(20, 1, 1))
    case MctpHost2 => Some(Pattern(20, 1, 2))
    case I3c => Some(Pattern(60, 0, 0))
    case _ => None
  }

  function DiagnosticPattern(t: InterfaceType): Option<Pattern> {
    match t
    case Diagnostic1 => Some(Pattern(220, 1, 1))
    case Diagnostic2 => Some(Pattern(220, 2, 0))
    case Diagnostic3 => Some(Pattern(220, 2, 1))
    case Diagnostic4 => Some(Pattern(220, 3, 0))
    case Diagnostic5 => Some(Pattern(220, 3, 1))
    case Diagnostic6 => Some(Pattern(220, 4, 0))
    case Diagnostic7 => Some(Pattern(220, 4, 1))
    case Diagnostic8 => Some(Pattern(220, 5, 0))
    case Diagnostic9 => Some(Pattern(220, 5, 1))
    case Diagnostic10 => Some(Pattern(220, 6, 0))
    case Diagnostic11 => Some(Pattern(220, 6, 1))
    case Diagnostic12 => Some(Pattern(220, 7, 0))
    case Diagnostic13 => Some(Pattern(220, 7, 1))
    case Diagnostic14 => Some(Pattern(220, 8, 0))
    case _ => None
  }

  function WirelessPattern(t: InterfaceType): Option<Pattern> {
    match t
    case WirlessController1 => Some(Pattern(224, 1, 1))
    case WirlessController2 => Some(Pattern(224, 1, 2))
    case WirlessController3 => Some(Pattern(224, 1, 3))
    case WirlessController4 => Some(Pattern(224, 1, 4))
    case WirlessController5 => Some(Pattern(224, 2, 1))
    case WirlessController6 => Some(Pattern(224, 2, 2))
    case WirlessController7 => Some(Pattern(224, 2, 3))
    case _ => None
  }

  function MiscellaneousPattern(t: InterfaceType): Option<Pattern> {
    match t
    case Miscellaneous1 => Some(Pattern(239, 1, 1))
    case Miscellaneous2 => Some(Pattern(239, 1, 2))
    case Miscellaneous5 => Some(Pattern(239, 3, 1))
    case Miscellaneous6 => Some(Pattern(239, 4, 1))
    case Miscellaneous7 => Some(Pattern(239, 4, 2))
    case Miscellaneous8 => Some(Pattern(239, 4, 3))
    case Miscellaneous9 => Some(Pattern(239, 4, 4))
    case Miscellaneous10 => Some(Pattern(239, 4, 5))
    case Miscellaneous11 => Some(Pattern(239, 4, 6))
    case Miscellaneous12 => Some(Pattern(239, 4, 7))
    case Miscellaneous13 => Some(Pattern(239, 5, 0))
    case Miscellaneous14 => Some(Pattern(239, 5, 1))
    case Miscellaneous15 => Some(Pattern(239, 5, 2))
    case Miscellaneous16 => Some(Pattern(239, 6, 1))
    case Miscellaneous17 => Some(Pattern(239, 6, 2))
    case Miscellaneous18 => Some(Pattern(239, 7, 1))
    case Miscellaneous19 => Some(Pattern(239, 7, 2))
    case _ => None
  }

  function SpecificPattern(t: InterfaceType): Option<Pattern> {
    match t
    case ApplicationSpe1 => Some(Pattern(254, 1, 1))
    case ApplicationSpe2 => Some(Pattern(254, 2, 0))
    case ApplicationSpe3 => Some(Pattern(254, 3, 0))
    case ApplicationSpe4 => Some(Pattern(254, 3, 1))
    case VendorSpecific => Some(Pattern(255, ANY, ANY))
    case _ => None
  }

  function InterfacePattern(t: InterfaceType): Option<Pattern> {
    if CommonPattern(t).Some? then CommonPattern(t)
    else if BridgePattern(t).Some? then BridgePattern(t)
    else if DiagnosticPattern(t).Some? then DiagnosticPattern(t)
    else if WirelessPattern(t).Some? then WirelessPattern(t)
    else if MiscellaneousPattern(t).Some? then MiscellaneousPattern(t)
    else SpecificPattern(t)
  }

  function DeviceTable(): TypeTable {
    map t: InterfaceType | DevicePattern(t).Some? :: DevicePattern(t).value
  }

  function InterfaceTable(): TypeTable {
    map t: InterfaceType | InterfacePattern(t).Some? :: InterfacePattern(t).value
  }

  ghost predicate Disjoint(table: TypeTable) {
    forall t, u, b, s, p ::
      t in table && u in table && Covers(table[t], b, s, p) && Covers(table[u], b, s, p) ==> t == u
  }

  lemma DeviceTableDisjoint()
    ensures Disjoint(DeviceTable())
  {
  }

  // The one pattern of each part that a class triple can fall under.

  function CommonType(baseClass: int, subClass: int, protocol: int): InterfaceType {
    if baseClass == 1 then Audio
    else if baseClass == 2 then Communication
    else if baseClass == 3 then Hid
    else if baseClass == 5 then Physical
    else if baseClass == 6 && subClass == 1 && protocol == 1 then Image
    else if baseClass == 7 then Printer
    else if baseClass == 8 then Storage
    else if baseClass == 10 then CdcData
    else if baseClass == 11 then SmartCard
    else if baseClass == 13 && subClass == 0 && protocol == 0 then ContentSecurtiy
    else if baseClass == 14 then Video
    else PersonalHealthcare
  }

  lemma OnlyCommonType(t: InterfaceType, q: Pattern, baseClass: int, subClass: int, protocol: int)
    requires CommonPattern(t) == Some(q) && Covers(q, baseClass, subClass, protocol)
    ensures baseClass < 16 && t == CommonType(baseClass, subClass, protocol)
  {
  }

  function BridgeType(baseClass: int, subClass: int, protocol: int): InterfaceType {
    if baseClass == 16 && subClass == 1 && protocol == 0 then Avcontrol
    else if baseClass == 16 && subClass == 2 && protocol == 0 then AvvStreaming
    else if baseClass == 16 && subClass == 3 && protocol == 0 then AvaStreaming
    else if baseClass == 18 && subClass == 0 && protocol == 0 then TypecBridge
    else if baseClass == 19 && subClass == 0 && protocol == 0 then Bdp
    else if baseClass == 20 && subClass == 0 && protocol == 1 then MctpMana1
    else if baseClass == 20 && subClass == 0 && protocol == 2 then MctpMana2
    else if baseClass == 20 && subClass == 1 && protocol == 1 then MctpHost1
    else if baseClass == 20 && subClass == 1 && protocol == 2 then MctpHost2
    else I3c
  }

  lemma OnlyBridgeType(t: InterfaceType, q: Pattern, baseClass: int, subClass: int, protocol: int)
    requires BridgePattern(t) == Some(q) && Covers(q, baseClass, subClass, protocol)
    ensures 16 <= baseClass <= 60 && t == BridgeType(baseClass, subClass, protocol)
  {
  }

  function DiagnosticType(subClass: int, protocol: int): InterfaceType {
    if subClass == 1 && protocol == 1 then Diagnostic1
    else if subClass == 2 && protocol == 0 then Diagnostic2
    else if subClass == 2 && protocol == 1 then Diagnostic3
    else if subClass == 3 && protocol == 0 then Diagnostic4
    else if subClass == 3 && protocol == 1 then Diagnostic5
    else if subClass == 4 && protocol == 0 then Diagnostic6
    else if subClass == 4 && protocol == 1 then Diagnostic7
    else if subClass == 5 && protocol == 0 then Diagnostic8
    else if subClass == 5 && protocol == 1 then Diagnostic9
    else if subClass == 6 && protocol == 0 then Diagnostic10
    else if subClass == 6 && protocol == 1 then Diagnostic11
    else if subClass == 7 && protocol == 0 then Diagnostic12
    else if subClass == 7 && protocol == 1 then Diagnostic13
    else Diagnostic14
  }

  lemma OnlyDiagnosticType(t: InterfaceType, q: Pattern, baseClass: int, subClass: int, protocol: int)
    requires DiagnosticPattern(t) == Some(q) && Covers(q, baseClass, subClass, protocol)
    ensures baseClass == 220 && t == DiagnosticType(subClass, protocol)
  {
  }

  function WirelessType(subClass: int, protocol: int): InterfaceType {
    if subClass == 1 && protocol == 1 then WirlessController1
    else if subClass == 1 && protocol == 2 then WirlessController2
    else if subClass == 1 && protocol == 3 then WirlessController3
    else if subClass == 1 && protocol == 4 then WirlessController4
    else if subClass == 2 && protocol == 1 then WirlessController5
    else if subClass == 2 && protocol == 2 then WirlessController6
    else WirlessController7
  }

  lemma OnlyWirelessType(t: InterfaceType, q: Pattern, baseClass: int, subClass: int, protocol: int)
    requires WirelessPattern(t) == Some(q) && Covers(q, baseClass, subClass, protocol)
    ensures baseClass == 224 && t == WirelessType(subClass, protocol)
  {
  }

  function MiscellaneousType(subClass: int, protocol: int): InterfaceType {
    if subClass == 1 && protocol == 1 then Miscellaneous1
    else if subClass == 1 && protocol == 2 then Miscellaneous2
    else if subClass == 3 && protocol == 1 then Miscellaneous5
    else if subClass == 4 && protocol == 1 then Miscellaneous6
    else if subClass == 4 && protocol == 2 then Miscellaneous7
    else if subClass == 4 && protocol == 3 then Miscellaneous8
    else if subClass == 4 && protocol == 4 then Miscellaneous9
    else if subClass == 4 && protocol == 5 then Miscellaneous10
    else if subClass == 4 && protocol == 6 then Miscellaneous11
    else if subClass == 4 && protocol == 7 then Miscellaneous12
    else if subClass == 5 && protocol == 0 then Miscellaneous13
    else if subClass == 5 && protocol == 1 then Miscellaneous14
    else if subClass == 5 && protocol == 2 then Miscellaneous15
    else if subClass == 6 && protocol == 1 then Miscellaneous16
    else if subClass == 6 && protocol == 2 then Miscellaneous17
    else if subClass == 7 && protocol == 1 then Miscellaneous18
    else Miscellaneous19
  }

  lemma OnlyMiscellaneousType(t: InterfaceType, q: Pattern, baseClass: int, subClass: int, protocol: int)
    requires MiscellaneousPattern(t) == Some(q) && Covers(q, baseClass, subClass, protocol)
    ensures baseClass == 239 && t == MiscellaneousType(subClass, protocol)
  {
  }

  function SpecificType(baseClass: int, subClass: int, protocol: int): InterfaceType {
    if baseClass == 254 && subClass == 1 && protocol == 1 then ApplicationSpe1
    else if baseClass == 254 && subClass == 2 && protocol == 0 then ApplicationSpe2
    else if baseClass == 254 && subClass == 3 && protocol == 0 then ApplicationSpe3
    else if baseClass == 254 && subClass == 3 && protocol == 1 then ApplicationSpe4
    else VendorSpecific
  }

  lemma OnlySpecificType(t: InterfaceType, q: Pattern, baseClass: int, subClass: int, protocol: int)
    requires SpecificPattern(t) == Some(q) && Covers(q, baseClass, subClass, protocol)
    ensures baseClass >= 254 && t == SpecificType(baseClass, subClass, protocol)
  {
  }

  function InterfaceTypeOf(baseClass: int, subClass: int, protocol: int): InterfaceType {
    if baseClass < 16 then CommonType(baseClass, subClass, protocol)
    else if baseClass <= 60 then BridgeType(baseClass, subClass, protocol)
    else if baseClass == 220 then DiagnosticType(subClass, protocol)
    else if baseClass == 224 then WirelessType(subClass, protocol)
    else if baseClass == 239 then MiscellaneousType(subClass, protocol)
    else SpecificType(baseClass, subClass, protocol)
  }

  lemma OnlyInterfaceType(t: InterfaceType, q: Pattern, baseClass: int, subClass: int, protocol: int)
    requires InterfacePattern(t) == Some(q) && Covers(q, baseClass, subClass, protocol)
    ensures t == InterfaceTypeOf(baseClass, subClass, protocol)
  {
    if CommonPattern(t).Some? {
      OnlyCommonType(t, q, baseClass, subClass, protocol);
    } else if BridgePattern(t).Some? {
      OnlyBridgeType(t, q, baseClass, subClass, protocol);
    } else if DiagnosticPattern(t).Some? {
      OnlyDiagnosticType(t, q, baseClass, subClass, protocol);
    } else if WirelessPattern(t).Some? {
      OnlyWirelessType(t, q, baseClass, subClass, protocol);
    } else if MiscellaneousPattern(t).Some? {
      OnlyMiscellaneousType(t, q, baseClass, subClass, protocol);
    } else {
      OnlySpecificType(t, q, baseClass, subClass, protocol);
    }
  }

  lemma {:induction false} InterfaceTableDisjoint()
    ensures Disjoint(InterfaceTable())
  {
    var table := InterfaceTable();
    forall t, u, b, s, p | t in table && u in table && Covers(table[t], b, s, p) && Covers(table[u], b, s, p)
      ensures t == u
    {
      OnlyInterfaceType(t, table[t], b, s, p);
      OnlyInterfaceType(u, table[u], b, s, p);
    }
  }
}
