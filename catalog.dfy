/**
 * The type catalog and the role table of the register bank: the fixed table
 * of register classes, the lookups between class ordinals and their names,
 * and the two-character role keywords with the range-checked role binding.
 */
module Catalog {
  import opened Wrappers

  /** Ordinals of the register classes, dense from 0. */
  const TYPE_GPR := 0
  const TYPE_DRX := 1
  const TYPE_FPU := 2
  const TYPE_MMX := 3
  const TYPE_XMM := 4
  const TYPE_FLG := 5
  const TYPE_SEG := 6
  /** Number of register classes, and the value returned for an unknown name. */
  const TYPE_LAST := 7
  /** The query selector "all classes". */
  const TYPE_ALL := -1

  /** The type table: class ordinal i is named TYPES[i]. */
  const TYPES: seq<string> := ["gpr", "drx", "fpu", "mmx", "xmm", "flg", "seg"]

  /** Ordinals of the logical roles, in the order the keyword switch lists them. */
  const NAME_PC := 0
  const NAME_SR := 1
  const NAME_SP := 2
  const NAME_BP := 3
  const NAME_A0 := 4
  const NAME_A1 := 5
  const NAME_A2 := 6
  const NAME_A3 := 7
  /** Number of roles. */
  const NAME_LAST := 8

  /** The role keywords: role ordinal i is selected by the two characters ROLES[i]. */
  const ROLES: seq<string> := ["pc", "sr", "sp", "bp", "a0", "a1", "a2", "a3"]

  /** r_reg_get_type: the name of an in-range class ordinal, None (NULL) otherwise. */
  function TypeName(idx: int): (r: Option<string>)
    ensures r.Some? <==> 0 <= idx < TYPE_LAST
    ensures r.Some? ==> r.value in TYPES
  {
    if 0 <= idx < TYPE_LAST then Some(TYPES[idx]) else None
  }

  /** The loop of r_reg_type_by_name: the first table slot at or after i holding s. */
  function FindType(s: string, i: nat): (r: nat)
    requires i <= TYPE_LAST
    ensures i <= r <= TYPE_LAST
    ensures r < TYPE_LAST ==> TYPES[r] == s
    ensures forall j :: i <= j < r ==> TYPES[j] != s
    decreases TYPE_LAST - i
  {
    if i == TYPE_LAST then TYPE_LAST
    else if TYPES[i] == s then i
    else FindType(s, i + 1)
  }

  /**
   * r_reg_type_by_name: the ordinal of a class name, TYPE_ALL for "all",
   * and TYPE_LAST for any other string.
   */
  function TypeByName(s: string): (r: int)
    ensures r == TYPE_ALL || 0 <= r <= TYPE_LAST
    ensures 0 <= r < TYPE_LAST ==> TYPES[r] == s
    ensures r == TYPE_ALL <==> s == "all"
    ensures r == TYPE_LAST <==> s !in TYPES && s != "all"
  {
    var i := FindType(s, 0);
    if i < TYPE_LAST then i
    else if s == "all" then TYPE_ALL
    else TYPE_LAST
  }

  /** Every class name maps back to its own ordinal, and nothing else has a name. */
  lemma TypeNameRoundTrip(idx: int)
    ensures TypeName(idx).Some? <==> 0 <= idx < TYPE_LAST
    ensures TypeName(idx).Some? ==> TypeByName(TypeName(idx).value) == idx
  {
    if 0 <= idx < TYPE_LAST {
      var r := FindType(TYPES[idx], 0);
      assert r <= idx;
      assert TYPES[r] == TYPES[idx];
    }
  }

  /**
   * r_reg_get_name_idx: the role selected by the first two characters of s,
   * or -1. A string shorter than two characters selects nothing, since every
   * keyword has two non-NUL characters.
   */
  function RoleIndex(s: string): (r: int)
    ensures -1 <= r < NAME_LAST
    ensures r != -1 <==> |s| >= 2 && s[..2] in ROLES
    ensures r != -1 ==> ROLES[r] == s[..2]
  {
    if |s| < 2 then -1
    else
      var key := s[..2];
      assert key == [s[0], s[1]];
      if key == "pc" then NAME_PC
      else if key == "sr" then NAME_SR
      else if key == "sp" then NAME_SP
      else if key == "bp" then NAME_BP
      else if key == "a0" then NAME_A0
      else if key == "a1" then NAME_A1
      else if key == "a2" then NAME_A2
      else if key == "a3" then NAME_A3
      else -1
  }

  /** Only the first two characters count: "pcfoo" resolves like "pc". */
  lemma RoleIndexPrefix(s: string, rest: string)
    requires |s| >= 2
    ensures RoleIndex(s + rest) == RoleIndex(s[..2])
  {
    assert (s + rest)[..2] == s[..2][..2];
  }

  /** The eight keywords select eight distinct roles. */
  lemma RoleKeywordsDistinct(i: int)
    requires 0 <= i < NAME_LAST
    ensures RoleIndex(ROLES[i]) == i
  {
    assert ROLES[i][..2] == ROLES[i];
  }

  /**
   * r_reg_set_name on the name table: an in-range role is rebound to name,
   * anything else leaves the table as it was.
   */
  function Bind(names: seq<Option<string>>, role: int, name: string): (r: seq<Option<string>>)
    requires |names| == NAME_LAST
    ensures |r| == NAME_LAST
    ensures 0 <= role < NAME_LAST ==> r[role] == Some(name)
    ensures forall j :: 0 <= j < NAME_LAST && j != role ==> r[j] == names[j]
  {
    if 0 <= role < NAME_LAST then names[role := Some(name)] else names
  }
}
