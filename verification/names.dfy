/** Display names of the AVC profile and level codes of Annex A of
    ISO/IEC 14496-10. A profile code is 16 bits wide (the configuration
    record carries only 8, but the extended profiles need more); a level
    code is 8 bits. Unknown codes render as "Forbidden". */
module AvcNames {
  import opened Bytes

  const Forbidden := "Forbidden"

  const Baseline: uint16 := 66
  const ConstrainedBaseline: uint16 := 578
  const Main: uint16 := 77
  const Extended: uint16 := 88
  const High: uint16 := 100
  const High10: uint16 := 110
  const High10Intra: uint16 := 2158
  const High422: uint16 := 122
  const High422Intra: uint16 := 2170
  const High444: uint16 := 144
  const High444Predictive: uint16 := 244
  const High444Intra: uint16 := 2192

  /** The reference table of known profiles, keyed by numeric code. */
  const ProfileNames: map<int, string> := map[
    66 := "Baseline", 578 := "ConstrainedBaseline", 77 := "Main",
    88 := "Extended", 100 := "High", 110 := "High10",
    2158 := "High10Intra", 122 := "High422", 2170 := "High422Intra",
    144 := "High444", 244 := "High444Predictive", 2192 := "High444Intra"]

  /** `AVCProfile.String`. */
  function ProfileName(p: uint16): (name: string)
    ensures p in ProfileNames ==> name == ProfileNames[p]
    ensures p !in ProfileNames ==> name == Forbidden
  {
    if p == Baseline then "Baseline"
    else if p == ConstrainedBaseline then "ConstrainedBaseline"
    else if p == Main then "Main"
    else if p == Extended then "Extended"
    else if p == High then "High"
    else if p == High10 then "High10"
    else if p == High10Intra then "High10Intra"
    else if p == High422 then "High422"
    else if p == High422Intra then "High422Intra"
    else if p == High444 then "High444"
    else if p == High444Predictive then "High444Predictive"
    else if p == High444Intra then "High444Intra"
    else Forbidden
  }

  /** The reference table of known levels, keyed by numeric code. */
  const LevelNames: map<int, string> := map[
    10 := "Level_1", 11 := "Level_11", 12 := "Level_12", 13 := "Level_13",
    20 := "Level_2", 21 := "Level_21", 22 := "Level_22",
    30 := "Level_3", 31 := "Level_31", 32 := "Level_32",
    40 := "Level_4", 41 := "Level_41",
    50 := "Level_5", 51 := "Level_51"]

  /** `AVCLevel.String`. */
  function LevelName(l: byte): (name: string)
    ensures l in LevelNames ==> name == LevelNames[l]
    ensures l !in LevelNames ==> name == Forbidden
  {
    if l == 10 then "Level_1"
    else if l == 11 then "Level_11"
    else if l == 12 then "Level_12"
    else if l == 13 then "Level_13"
    else if l == 20 then "Level_2"
    else if l == 21 then "Level_21"
    else if l == 22 then "Level_22"
    else if l == 30 then "Level_3"
    else if l == 31 then "Level_31"
    else if l == 32 then "Level_32"
    else if l == 40 then "Level_4"
    else if l == 41 then "Level_41"
    else if l == 50 then "Level_5"
    else if l == 51 then "Level_51"
    else Forbidden
  }

  /** A profile is named "Forbidden" exactly when it is not a known code,
      and two known codes never share a name. */
  lemma ProfileNameCharacterised(p: uint16, q: uint16)
    ensures ProfileName(p) == Forbidden <==> p !in ProfileNames
    ensures p in ProfileNames && p != q ==> ProfileName(p) != ProfileName(q)
  {
  }

  /** The same for levels. */
  lemma LevelNameCharacterised(l: byte, m: byte)
    ensures LevelName(l) == Forbidden <==> l !in LevelNames
    ensures l in LevelNames && l != m ==> LevelName(l) != LevelName(m)
  {
  }

  /** The four extended profiles have codes above 255, so an 8-bit profile
      byte can never name them. */
  lemma EightBitProfilesAreNotExtended(p: uint16)
    requires p < 256
    ensures ProfileName(p) !in {"ConstrainedBaseline", "High10Intra", "High422Intra", "High444Intra"}
  {
  }
}
