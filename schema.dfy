/**
 * The vessel record schema (Models/Vessel.cs): a fixed table of 63 nullable
 * properties, each an `int?`, `long?`, `double?` or `string?`, and records as
 * maps from property name to a present value, where a missing key is `null`.
 */
module Schema {

  import opened Wrappers
  import opened Text

  /** The four declared property types. */
  datatype FieldType = IntField | LongField | DoubleField | StringField

  /** One property declaration: its C# name, its `[JsonPropertyName]` and its type. */
  datatype FieldDecl = FieldDecl(name: string, jsonName: string, kind: FieldType)

  const FieldCount: nat := 63

  /** The properties of `Vessel` in declaration order, the order reflection reports them in. */
  function FieldAt(i: nat): FieldDecl
    requires i < FieldCount
  {
    match i
    case 0 => FieldDecl("X01_CVN", "X01_CVN", LongField)
    case 1 => FieldDecl("Z30_BEN_OWNER_ID", "Z30_BEN_OWNER_ID", LongField)
    case 2 => FieldDecl("P59_VESSEL_TYPE_SHORT", "P59_VESSEL_TYPE_SHORT", StringField)
    case 3 => FieldDecl("L91_HULL_TYPE", "L91_HULL_TYPE", StringField)
    case 4 => FieldDecl("Z01_CURRENT_NAME", "Z01_CURRENT_NAME", StringField)
    case 5 => FieldDecl("Z20_SPEC_VALUE", "Z20_SPEC_VALUE", DoubleField)
    case 6 => FieldDecl("Z21_SPEC_UNIT", "Z21_SPEC_UNIT", StringField)
    case 7 => FieldDecl("A04_DWT_tonnes", "A04_DWT_tonnes", DoubleField)
    case 8 => FieldDecl("A05_GT", "A05_GT", DoubleField)
    case 9 => FieldDecl("FLAG", "FLAG", StringField)
    case 10 => FieldDecl("A12_YEAR_BUILT", "A12_YEAR_BUILT", IntField)
    case 11 => FieldDecl("A13_MONTH_BUILT", "A13_MONTH_BUILT", IntField)
    case 12 => FieldDecl("BUILDER", "BUILDER", StringField)
    case 13 => FieldDecl("BUILDER_FULL", "BUILDER_FULL", StringField)
    case 14 => FieldDecl("Z70_MAJOR_GROUP_ID", "Z70_MAJOR_GROUP_ID", LongField)
    case 15 => FieldDecl("GROUP_OWNER", "GROUP_OWNER", StringField)
    case 16 => FieldDecl("Z94_BUILDER_ID", "Z94_BUILDER_ID", LongField)
    case 17 => FieldDecl("ZS0_SHIP_TYPE", "ZS0_SHIP_TYPE", StringField)
    case 18 => FieldDecl("Z11_MAIN_STATUS", "Z11_MAIN_STATUS", StringField)
    case 19 => FieldDecl("BUILDER_COUNTRY_ID", "BUILDER_COUNTRY_ID", LongField)
    case 20 => FieldDecl("Z80_VESSEL_AGE", "Z80_VESSEL_AGE", DoubleField)
    case 21 => FieldDecl("OWNER_REAL_NATIONALITY_ID", "OWNER_REAL_NATIONALITY_ID", LongField)
    case 22 => FieldDecl("BEN_OWNER", "BEN_OWNER", StringField)
    case 23 => FieldDecl("BEN_OWNER_FULL", "BEN_OWNER_FULL", StringField)
    case 24 => FieldDecl("ZH9_DEMOLITION_DATE", "ZH9_DEMOLITION_DATE", StringField)
    case 25 => FieldDecl("Z02_EXNAME", "Z02_EXNAME", StringField)
    case 26 => FieldDecl("Z06_CGT", "Z06_CGT", DoubleField)
    case 27 => FieldDecl("Z05_DATE_BUILT", "Z05_DATE_BUILT", StringField)
    case 28 => FieldDecl("Z03_FLAG_CODE", "Z03_FLAG_CODE", StringField)
    case 29 => FieldDecl("BUILDER_COUNTRY", "BUILDER_COUNTRY", StringField)
    case 30 => FieldDecl("EF01105_ENGINE_1_DESIGNER_COMPANY", "EF01105_ENGINE_1_DESIGNER_COMPANY", StringField)
    case 31 => FieldDecl("Z19_CLASS", "Z19_CLASS", StringField)
    case 32 => FieldDecl("Z15_TYPE_OF_CHANGE_DATE", "Z15_TYPE_OF_CHANGE_DATE", StringField)
    case 33 => FieldDecl("ZY0_WORLD_FLEET_TYPE", "ZY0_WORLD_FLEET_TYPE", StringField)
    case 34 => FieldDecl("P36_VESSEL_TYPE", "P36_VESSEL_TYPE", StringField)
    case 35 => FieldDecl("Z22_SIZE", "Z22_SIZE", DoubleField)
    case 36 => FieldDecl("Z23_SIZE_UNIT", "Z23_SIZE_UNIT", StringField)
    case 37 => FieldDecl("A06_LOA_m", "A06_LOA_m", DoubleField)
    case 38 => FieldDecl("A08_DRAFT_m", "A08_DRAFT_m", DoubleField)
    case 39 => FieldDecl("D22_SPEED_knots", "D22_SPEED_knots", DoubleField)
    case 40 => FieldDecl("D10_MAIN_FUEL_CONSUMPTION_tpd", "D10_MAIN_FUEL_CONSUMPTION_tpd", DoubleField)
    case 41 => FieldDecl("A07_BREADTH_m", "A07_BREADTH_m", DoubleField)
    case 42 => FieldDecl("Z14_TYPE_OF_CHANGE", "Z14_TYPE_OF_CHANGE", StringField)
    case 43 => FieldDecl("ZV2_OLD_SHORT_TYPE", "ZV2_OLD_SHORT_TYPE", StringField)
    case 44 => FieldDecl("ZV3_CURRENT_SHORT_TYPE", "ZV3_CURRENT_SHORT_TYPE", StringField)
    case 45 => FieldDecl("ZV1_DATE_CONVERSION_BUILT", "ZV1_DATE_CONVERSION_BUILT", StringField)
    case 46 => FieldDecl("Z83_BEST_TOC_DATE", "Z83_BEST_TOC_DATE", StringField)
    case 47 => FieldDecl("P19_BUILDER_STATUS", "P19_BUILDER_STATUS", StringField)
    case 48 => FieldDecl("A14_HULL_NUMBER", "A14_HULL_NUMBER", StringField)
    case 49 => FieldDecl("L93_STATUS", "L93_STATUS", StringField)
    case 50 => FieldDecl("E22_CONTRACT_DATE", "E22_CONTRACT_DATE", StringField)
    case 51 => FieldDecl("E28_NEWBUILD_PRICE", "E28_NEWBUILD_PRICE", DoubleField)
    case 52 => FieldDecl("E29_NEWBUILD_CURRENCY_IND", "E29_NEWBUILD_CURRENCY_IND", StringField)
    case 53 => FieldDecl("Z04_GT_ESTIMATED", "Z04_GT_ESTIMATED", DoubleField)
    case 54 => FieldDecl("ZR1_BUILT", "ZR1_BUILT", StringField)
    case 55 => FieldDecl("Z92_BUILDER_GROUP_ID", "Z92_BUILDER_GROUP_ID", LongField)
    case 56 => FieldDecl("BUILDER_GROUP", "BUILDER_GROUP", StringField)
    case 57 => FieldDecl("VESSEL_DESCRIPTION", "VESSEL_DESCRIPTION", StringField)
    case 58 => FieldDecl("X03_IMO_NUMBER", "X03_IMO_NUMBER", LongField)
    case 59 => FieldDecl("Z13_STATUS_CODE", "Z13_STATUS_CODE", IntField)
    case 60 => FieldDecl("Z2T_GLOBAL_MAIN_STATUS", "Z2T_GLOBAL_MAIN_STATUS", IntField)
    case 61 => FieldDecl("Z2S_GLOBAL_FLEET_TYPE", "Z2S_GLOBAL_FLEET_TYPE", IntField)
    case _ => FieldDecl("Z50_MANAGER_ID", "Z50_MANAGER_ID", LongField)
  }

  /** The catalog key of a property: its name upper-cased. */
  function Key(i: nat): string
    requires i < FieldCount
  {
    Upper(FieldAt(i).name)
  }

  /**
   * A number that tells the catalog keys apart: a key's length and its first
   * three characters.
   *
   * The catalog is built with `ToDictionary`, which needs its 63 keys to be
   * distinct. Comparing every pair of keys directly is 1953 string
   * comparisons, too many for the verifier at once; instead each key is
   * mapped to this number, `FingerprintIndex` maps the number back to the
   * key's position, and a key that leads back to its own position cannot
   * equal any other key. Each table row below checks one key.
   */
  function Fingerprint(k: string): int {
    if |k| < 3 then 0 else |k| * 1000000 + (k[0] as int) * 10000 + (k[1] as int) * 100 + k[2] as int
  }

  /** The position of the property whose key has fingerprint `f`. */
  function FingerprintIndex(f: int): Option<nat> {
    match f
    case 7884849 => Some(0)
    case 16905148 => Some(1)
    case 21805357 => Some(2)
    case 13765749 => Some(3)
    case 16904849 => Some(4)
    case 14905048 => Some(5)
    case 13905049 => Some(6)
    case 14654852 => Some(7)
    case 6654853 => Some(8)
    case 4707665 => Some(9)
    case 14654950 => Some(10)
    case 15654951 => Some(11)
    case 7668573 => Some(12)
    case 12668573 => Some(13)
    case 18905548 => Some(14)
    case 11718279 => Some(15)
    case 14905752 => Some(16)
    case 13908348 => Some(17)
    case 15904949 => Some(18)
    case 18668573 => Some(19)
    case 14905648 => Some(20)
    case 25798778 => Some(21)
    case 9666978 => Some(22)
    case 14666978 => Some(23)
    case 19907257 => Some(24)
    case 10904850 => Some(25)
    case 7904854 => Some(26)
    case 14904853 => Some(27)
    case 13904851 => Some(28)
    case 15668573 => Some(29)
    case 33697048 => Some(30)
    case 9904957 => Some(31)
    case 23904953 => Some(32)
    case 20908948 => Some(33)
    case 15805154 => Some(34)
    case 8905050 => Some(35)
    case 13905051 => Some(36)
    case 9654854 => Some(37)
    case 11654856 => Some(38)
    case 15685050 => Some(39)
    case 29684948 => Some(40)
    case 13654855 => Some(41)
    case 18904952 => Some(42)
    case 18908650 => Some(43)
    case 22908651 => Some(44)
    case 25908649 => Some(45)
    case 17905651 => Some(46)
    case 18804957 => Some(47)
    case 15654952 => Some(48)
    case 10765751 => Some(49)
    case 17695050 => Some(50)
    case 18695056 => Some(51)
    case 25695057 => Some(52)
    case 16904852 => Some(53)
    case 9908249 => Some(54)
    case 20905750 => Some(55)
    case 13668573 => Some(56)
    case 18866983 => Some(57)
    case 14884851 => Some(58)
    case 15904951 => Some(59)
    case 22905084 => Some(60)
    case 21905083 => Some(61)
    case 14905348 => Some(62)
    case _ => None
  }

  /** One row of the table: property `i` is called `name`, and its key's fingerprint `f` leads back to `i`. */
  lemma KeyPrint(i: nat, name: string, f: int)
    requires i < FieldCount && FieldAt(i).name == name
    requires Fingerprint(Upper(name)) == f && FingerprintIndex(f) == Some(i)
    ensures FingerprintIndex(Fingerprint(Key(i))) == Some(i)
  {
  }

  // The fingerprint of each key, row by row; then by ranges of rows.
  lemma KeyRow0() ensures FingerprintIndex(Fingerprint(Key(0))) == Some(0) { KeyPrint(0, "X01_CVN", 7884849); }
  lemma KeyRow1() ensures FingerprintIndex(Fingerprint(Key(1))) == Some(1) { KeyPrint(1, "Z30_BEN_OWNER_ID", 16905148); }
  lemma KeyRow2() ensures FingerprintIndex(Fingerprint(Key(2))) == Some(2) { KeyPrint(2, "P59_VESSEL_TYPE_SHORT", 21805357); }
  lemma KeyRow3() ensures FingerprintIndex(Fingerprint(Key(3))) == Some(3) { KeyPrint(3, "L91_HULL_TYPE", 13765749); }
  lemma KeyRow4() ensures FingerprintIndex(Fingerprint(Key(4))) == Some(4) { KeyPrint(4, "Z01_CURRENT_NAME", 16904849); }
  lemma KeyRow5() ensures FingerprintIndex(Fingerprint(Key(5))) == Some(5) { KeyPrint(5, "Z20_SPEC_VALUE", 14905048); }
  lemma KeyRow6() ensures FingerprintIndex(Fingerprint(Key(6))) == Some(6) { KeyPrint(6, "Z21_SPEC_UNIT", 13905049); }
  lemma KeyRow7() ensures FingerprintIndex(Fingerprint(Key(7))) == Some(7) { KeyPrint(7, "A04_DWT_tonnes", 14654852); }
  lemma KeyRow8() ensures FingerprintIndex(Fingerprint(Key(8))) == Some(8) { KeyPrint(8, "A05_GT", 6654853); }
  lemma KeyRow9() ensures FingerprintIndex(Fingerprint(Key(9))) == Some(9) { KeyPrint(9, "FLAG", 4707665); }
  lemma KeyRow10() ensures FingerprintIndex(Fingerprint(Key(10))) == Some(10) { KeyPrint(10, "A12_YEAR_BUILT", 14654950); }
  lemma KeyRow11() ensures FingerprintIndex(Fingerprint(Key(11))) == Some(11) { KeyPrint(11, "A13_MONTH_BUILT", 15654951); }
  lemma KeyRow12() ensures FingerprintIndex(Fingerprint(Key(12))) == Some(12) { KeyPrint(12, "BUILDER", 7668573); }
  lemma KeyRow13() ensures FingerprintIndex(Fingerprint(Key(13))) == Some(13) { KeyPrint(13, "BUILDER_FULL", 12668573); }
  lemma KeyRow14() ensures FingerprintIndex(Fingerprint(Key(14))) == Some(14) { KeyPrint(14, "Z70_MAJOR_GROUP_ID", 18905548); }
  lemma KeyRow15() ensures FingerprintIndex(Fingerprint(Key(15))) == Some(15) { KeyPrint(15, "GROUP_OWNER", 11718279); }
  lemma KeyRow16() ensures FingerprintIndex(Fingerprint(Key(16))) == Some(16) { KeyPrint(16, "Z94_BUILDER_ID", 14905752); }
  lemma KeyRow17() ensures FingerprintIndex(Fingerprint(Key(17))) == Some(17) { KeyPrint(17, "ZS0_SHIP_TYPE", 13908348); }
  lemma KeyRow18() ensures FingerprintIndex(Fingerprint(Key(18))) == Some(18) { KeyPrint(18, "Z11_MAIN_STATUS", 15904949); }
  lemma KeyRow19() ensures FingerprintIndex(Fingerprint(Key(19))) == Some(19) { KeyPrint(19, "BUILDER_COUNTRY_ID", 18668573); }
  lemma KeyRow20() ensures FingerprintIndex(Fingerprint(Key(20))) == Some(20) { KeyPrint(20, "Z80_VESSEL_AGE", 14905648); }
  lemma KeyRow21() ensures FingerprintIndex(Fingerprint(Key(21))) == Some(21) { KeyPrint(21, "OWNER_REAL_NATIONALITY_ID", 25798778); }
  lemma KeyRow22() ensures FingerprintIndex(Fingerprint(Key(22))) == Some(22) { KeyPrint(22, "BEN_OWNER", 9666978); }
  lemma KeyRow23() ensures FingerprintIndex(Fingerprint(Key(23))) == Some(23) { KeyPrint(23, "BEN_OWNER_FULL", 14666978); }
  lemma KeyRow24() ensures FingerprintIndex(Fingerprint(Key(24))) == Some(24) { KeyPrint(24, "ZH9_DEMOLITION_DATE", 19907257); }
  lemma KeyRow25() ensures FingerprintIndex(Fingerprint(Key(25))) == Some(25) { KeyPrint(25, "Z02_EXNAME", 10904850); }
  lemma KeyRow26() ensures FingerprintIndex(Fingerprint(Key(26))) == Some(26) { KeyPrint(26, "Z06_CGT", 7904854); }
  lemma KeyRow27() ensures FingerprintIndex(Fingerprint(Key(27))) == Some(27) { KeyPrint(27, "Z05_DATE_BUILT", 14904853); }
  lemma KeyRow28() ensures FingerprintIndex(Fingerprint(Key(28))) == Some(28) { KeyPrint(28, "Z03_FLAG_CODE", 13904851); }
  lemma KeyRow29() ensures FingerprintIndex(Fingerprint(Key(29))) == Some(29) { KeyPrint(29, "BUILDER_COUNTRY", 15668573); }
  lemma KeyRow30() ensures FingerprintIndex(Fingerprint(Key(30))) == Some(30) { KeyPrint(30, "EF01105_ENGINE_1_DESIGNER_COMPANY", 33697048); }
  lemma KeyRow31() ensures FingerprintIndex(Fingerprint(Key(31))) == Some(31) { KeyPrint(31, "Z19_CLASS", 9904957); }
  lemma KeyRow32() ensures FingerprintIndex(Fingerprint(Key(32))) == Some(32) { KeyPrint(32, "Z15_TYPE_OF_CHANGE_DATE", 23904953); }
  lemma KeyRow33() ensures FingerprintIndex(Fingerprint(Key(33))) == Some(33) { KeyPrint(33, "ZY0_WORLD_FLEET_TYPE", 20908948); }
  lemma KeyRow34() ensures FingerprintIndex(Fingerprint(Key(34))) == Some(34) { KeyPrint(34, "P36_VESSEL_TYPE", 15805154); }
  lemma KeyRow35() ensures FingerprintIndex(Fingerprint(Key(35))) == Some(35) { KeyPrint(35, "Z22_SIZE", 8905050); }
  lemma KeyRow36() ensures FingerprintIndex(Fingerprint(Key(36))) == Some(36) { KeyPrint(36, "Z23_SIZE_UNIT", 13905051); }
  lemma KeyRow37() ensures FingerprintIndex(Fingerprint(Key(37))) == Some(37) { KeyPrint(37, "A06_LOA_m", 9654854); }
  lemma KeyRow38() ensures FingerprintIndex(Fingerprint(Key(38))) == Some(38) { KeyPrint(38, "A08_DRAFT_m", 11654856); }
  lemma KeyRow39() ensures FingerprintIndex(Fingerprint(Key(39))) == Some(39) { KeyPrint(39, "D22_SPEED_knots", 15685050); }
  lemma KeyRow40() ensures FingerprintIndex(Fingerprint(Key(40))) == Some(40) { KeyPrint(40, "D10_MAIN_FUEL_CONSUMPTION_tpd", 29684948); }
  lemma KeyRow41() ensures FingerprintIndex(Fingerprint(Key(41))) == Some(41) { KeyPrint(41, "A07_BREADTH_m", 13654855); }
  lemma KeyRow42() ensures FingerprintIndex(Fingerprint(Key(42))) == Some(42) { KeyPrint(42, "Z14_TYPE_OF_CHANGE", 18904952); }
  lemma KeyRow43() ensures FingerprintIndex(Fingerprint(Key(43))) == Some(43) { KeyPrint(43, "ZV2_OLD_SHORT_TYPE", 18908650); }
  lemma KeyRow44() ensures FingerprintIndex(Fingerprint(Key(44))) == Some(44) { KeyPrint(44, "ZV3_CURRENT_SHORT_TYPE", 22908651); }
  lemma KeyRow45() ensures FingerprintIndex(Fingerprint(Key(45))) == Some(45) { KeyPrint(45, "ZV1_DATE_CONVERSION_BUILT", 25908649); }
  lemma KeyRow46() ensures FingerprintIndex(Fingerprint(Key(46))) == Some(46) { KeyPrint(46, "Z83_BEST_TOC_DATE", 17905651); }
  lemma KeyRow47() ensures FingerprintIndex(Fingerprint(Key(47))) == Some(47) { KeyPrint(47, "P19_BUILDER_STATUS", 18804957); }
  lemma KeyRow48() ensures FingerprintIndex(Fingerprint(Key(48))) == Some(48) { KeyPrint(48, "A14_HULL_NUMBER", 15654952); }
  lemma KeyRow49() ensures FingerprintIndex(Fingerprint(Key(49))) == Some(49) { KeyPrint(49, "L93_STATUS", 10765751); }
  lemma KeyRow50() ensures FingerprintIndex(Fingerprint(Key(50))) == Some(50) { KeyPrint(50, "E22_CONTRACT_DATE", 17695050); }
  lemma KeyRow51() ensures FingerprintIndex(Fingerprint(Key(51))) == Some(51) { KeyPrint(51, "E28_NEWBUILD_PRICE", 18695056); }
  lemma KeyRow52() ensures FingerprintIndex(Fingerprint(Key(52))) == Some(52) { KeyPrint(52, "E29_NEWBUILD_CURRENCY_IND", 25695057); }
  lemma KeyRow53() ensures FingerprintIndex(Fingerprint(Key(53))) == Some(53) { KeyPrint(53, "Z04_GT_ESTIMATED", 16904852); }
  lemma KeyRow54() ensures FingerprintIndex(Fingerprint(Key(54))) == Some(54) { KeyPrint(54, "ZR1_BUILT", 9908249); }
  lemma KeyRow55() ensures FingerprintIndex(Fingerprint(Key(55))) == Some(55) { KeyPrint(55, "Z92_BUILDER_GROUP_ID", 20905750); }
  lemma KeyRow56() ensures FingerprintIndex(Fingerprint(Key(56))) == Some(56) { KeyPrint(56, "BUILDER_GROUP", 13668573); }
  lemma KeyRow57() ensures FingerprintIndex(Fingerprint(Key(57))) == Some(57) { KeyPrint(57, "VESSEL_DESCRIPTION", 18866983); }
  lemma KeyRow58() ensures FingerprintIndex(Fingerprint(Key(58))) == Some(58) { KeyPrint(58, "X03_IMO_NUMBER", 14884851); }
  lemma KeyRow59() ensures FingerprintIndex(Fingerprint(Key(59))) == Some(59) { KeyPrint(59, "Z13_STATUS_CODE", 15904951); }
  lemma KeyRow60() ensures FingerprintIndex(Fingerprint(Key(60))) == Some(60) { KeyPrint(60, "Z2T_GLOBAL_MAIN_STATUS", 22905084); }
  lemma KeyRow61() ensures FingerprintIndex(Fingerprint(Key(61))) == Some(61) { KeyPrint(61, "Z2S_GLOBAL_FLEET_TYPE", 21905083); }
  lemma KeyRow62() ensures FingerprintIndex(Fingerprint(Key(62))) == Some(62) { KeyPrint(62, "Z50_MANAGER_ID", 14905348); }

  lemma KeyRows0(i: nat)
    requires 0 <= i < 8
    ensures FingerprintIndex(Fingerprint(Key(i))) == Some(i)
  {
    if i == 0 { KeyRow0(); }
    else if i == 1 { KeyRow1(); }
    else if i == 2 { KeyRow2(); }
    else if i == 3 { KeyRow3(); }
    else if i == 4 { KeyRow4(); }
    else if i == 5 { KeyRow5(); }
    else if i == 6 { KeyRow6(); }
    else { assert i == 7; KeyRow7(); }
  }

  lemma KeyRows1(i: nat)
    requires 8 <= i < 16
    ensures FingerprintIndex(Fingerprint(Key(i))) == Some(i)
  {
    if i == 8 { KeyRow8(); }
    else if i == 9 { KeyRow9(); }
    else if i == 10 { KeyRow10(); }
    else if i == 11 { KeyRow11(); }
    else if i == 12 { KeyRow12(); }
    else if i == 13 { KeyRow13(); }
    else if i == 14 { KeyRow14(); }
    else { assert i == 15; KeyRow15(); }
  }

  lemma KeyRows2(i: nat)
    requires 16 <= i < 24
    ensures FingerprintIndex(Fingerprint(Key(i))) == Some(i)
  {
    if i == 16 { KeyRow16(); }
    else if i == 17 { KeyRow17(); }
    else if i == 18 { KeyRow18(); }
    else if i == 19 { KeyRow19(); }
    else if i == 20 { KeyRow20(); }
    else if i == 21 { KeyRow21(); }
    else if i == 22 { KeyRow22(); }
    else { assert i == 23; KeyRow23(); }
  }

  lemma KeyRows3(i: nat)
    requires 24 <= i < 32
    ensures FingerprintIndex(Fingerprint(Key(i))) == Some(i)
  {
    if i == 24 { KeyRow24(); }
    else if i == 25 { KeyRow25(); }
    else if i == 26 { KeyRow26(); }
    else if i == 27 { KeyRow27(); }
    else if i == 28 { KeyRow28(); }
    else if i == 29 { KeyRow29(); }
    else if i == 30 { KeyRow30(); }
    else { assert i == 31; KeyRow31(); }
  }

  lemma KeyRows4(i: nat)
    requires 32 <= i < 40
    ensures FingerprintIndex(Fingerprint(Key(i))) == Some(i)
  {
    if i == 32 { KeyRow32(); }
    else if i == 33 { KeyRow33(); }
    else if i == 34 { KeyRow34(); }
    else if i == 35 { KeyRow35(); }
    else if i == 36 { KeyRow36(); }
    else if i == 37 { KeyRow37(); }
    else if i == 38 { KeyRow38(); }
    else { assert i == 39; KeyRow39(); }
  }

  lemma KeyRows5(i: nat)
    requires 40 <= i < 48
    ensures FingerprintIndex(Fingerprint(Key(i))) == Some(i)
  {
    if i == 40 { KeyRow40(); }
    else if i == 41 { KeyRow41(); }
    else if i == 42 { KeyRow42(); }
    else if i == 43 { KeyRow43(); }
    else if i == 44 { KeyRow44(); }
    else if i == 45 { KeyRow45(); }
    else if i == 46 { KeyRow46(); }
    else { assert i == 47; KeyRow47(); }
  }

  lemma KeyRows6(i: nat)
    requires 48 <= i < 56
    ensures FingerprintIndex(Fingerprint(Key(i))) == Some(i)
  {
    if i == 48 { KeyRow48(); }
    else if i == 49 { KeyRow49(); }
    else if i == 50 { KeyRow50(); }
    else if i == 51 { KeyRow51(); }
    else if i == 52 { KeyRow52(); }
    else if i == 53 { KeyRow53(); }
    else if i == 54 { KeyRow54(); }
    else { assert i == 55; KeyRow55(); }
  }

  lemma KeyRows7(i: nat)
    requires 56 <= i < 63
    ensures FingerprintIndex(Fingerprint(Key(i))) == Some(i)
  {
    if i == 56 { KeyRow56(); }
    else if i == 57 { KeyRow57(); }
    else if i == 58 { KeyRow58(); }
    else if i == 59 { KeyRow59(); }
    else if i == 60 { KeyRow60(); }
    else if i == 61 { KeyRow61(); }
    else { assert i == 62; KeyRow62(); }
  }

  /** Each key's fingerprint leads back to its property. */
  lemma KeyFingerprint(i: nat)
    requires i < FieldCount
    ensures FingerprintIndex(Fingerprint(Key(i))) == Some(i)
  {
    if i < 8 { KeyRows0(i); }
    else if i < 16 { KeyRows1(i); }
    else if i < 24 { KeyRows2(i); }
    else if i < 32 { KeyRows3(i); }
    else if i < 40 { KeyRows4(i); }
    else if i < 48 { KeyRows5(i); }
    else if i < 56 { KeyRows6(i); }
    else { KeyRows7(i); }
  }



  /**
   * No two property names are equal ignoring case, so the case-insensitive
   * catalog built from them has one entry per property.
   */
  lemma KeysDistinct(i: nat, j: nat)
    requires i < FieldCount && j < FieldCount && i != j
    ensures Key(i) != Key(j)
    ensures !EqualsIgnoreCase(FieldAt(i).name, FieldAt(j).name)
  {
    KeyFingerprint(i);
    KeyFingerprint(j);
  }

  /** Every property is serialised under its own C# name. */
  lemma JsonNamesAreNames(i: nat)
    requires i < FieldCount
    ensures FieldAt(i).jsonName == FieldAt(i).name
  {
  }

  /** Types the query examples rely on. */
  lemma ExampleFieldTypes()
    ensures FieldAt(10) == FieldDecl("A12_YEAR_BUILT", "A12_YEAR_BUILT", IntField)
    ensures FieldAt(59) == FieldDecl("Z13_STATUS_CODE", "Z13_STATUS_CODE", IntField)
    ensures FieldAt(7) == FieldDecl("A04_DWT_tonnes", "A04_DWT_tonnes", DoubleField)
    ensures FieldAt(9) == FieldDecl("FLAG", "FLAG", StringField)
    ensures FieldAt(56) == FieldDecl("BUILDER_GROUP", "BUILDER_GROUP", StringField)
  {
  }

  /**
   * A present property value. `int` and `long` are kept apart because the
   * source distinguishes them; `double` is modelled as a real number.
   */
  datatype Value =
    | IntValue(i: int)
    | LongValue(l: int)
    | DoubleValue(d: real)
    | StringValue(s: string)

  /**
   * A vessel record: property position to present value. A property whose
   * position is not a key of the map is `null`, which every property may be.
   */
  type Vessel = map<nat, Value>

  /** The value of property `i`, or `None` for `null`. */
  function Get(v: Vessel, i: nat): Option<Value> {
    if i in v then Some(v[i]) else None
  }
}
