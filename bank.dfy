/**
 * The register bank RReg: the role name table and one register set per
 * class, with the operations of libr/reg/reg.c that change them in place.
 */
module Bank {
  import opened Wrappers
  import opened Catalog
  import opened Fields
  import opened Parser
  import opened Arenas
  import opened RegSets

  /**
   * The guard of r_reg_get_list as written: it refuses type < 0 and
   * type > TYPE_LAST, and so admits type == TYPE_LAST.
   */
  predicate GetListGuardAsWritten(rtype: int)
  {
    !(rtype < 0 || rtype > TYPE_LAST)
  }

  /** The guard as written lets TYPE_LAST through, one past the last set. */
  lemma GetListGuardAdmitsLast()
    ensures GetListGuardAsWritten(TYPE_LAST)
    ensures !(0 <= TYPE_LAST < |Fresh(0)|)
  {
  }

  class Reg {
    /** reg->name[]: the register bound to each role, None (NULL) when unbound. */
    var names: seq<Option<string>>
    /** reg->regset[]: one register set per class. */
    var regset: seq<RegSet>

    ghost predicate Valid()
      reads this
    {
      |names| == NAME_LAST && |regset| == TYPE_LAST && TypedSets(regset)
    }

    /** The bank owns every pooled arena handle of the allocator exactly once. */
    ghost predicate Owns(alloc: Allocator)
      reads this, alloc
    {
      OwnedBy(regset, alloc.live)
    }

    constructor Empty()
      ensures names == seq(NAME_LAST, _ => None) && regset == []
    {
      names := seq(NAME_LAST, _ => None);
      regset := [];
    }

    /**
     * r_reg_new: no role bound, and per class an empty item list and a
     * pool holding one new arena, which is also the current one. NULL when
     * an arena cannot be created; the arenas created before stay allocated.
     */
    static method New(alloc: Allocator) returns (reg: Reg?)
      requires alloc.Valid()
      modifies alloc
      ensures alloc.Valid()
      ensures reg == null <==> old(alloc.avail) < TYPE_LAST
      ensures alloc.next == old(alloc.next) + Min(TYPE_LAST, old(alloc.avail))
      ensures alloc.avail == old(alloc.avail) - Min(TYPE_LAST, old(alloc.avail))
      ensures alloc.live == old(alloc.live) + Range(old(alloc.next), Min(TYPE_LAST, old(alloc.avail)))
      ensures reg != null ==> fresh(reg) && reg.Valid() && reg.Owns(alloc) && Current(reg.regset)
      ensures reg != null ==> reg.names == seq(NAME_LAST, _ => None) && reg.regset == Fresh(old(alloc.next))
    {
      var r := new Reg.Empty();
      ghost var next0 := alloc.next;
      var i := 0;
      while i < TYPE_LAST
        invariant 0 <= i <= TYPE_LAST && i <= old(alloc.avail)
        invariant alloc.Valid()
        invariant alloc.next == next0 + i && alloc.avail == old(alloc.avail) - i
        invariant alloc.live == old(alloc.live) + Range(next0, i)
        invariant fresh(r) && r.names == seq(NAME_LAST, _ => None)
        invariant r.regset == Fresh(next0)[..i]
      {
        var a := alloc.Create();
        if a.None? {
          return null;
        }
        r.regset := r.regset + [RegSet([], [a.value], a)];
        i := i + 1;
      }
      FreshOwned(next0, alloc.live);
      reg := r;
    }

    /**
     * r_reg_free_internal: every item list is emptied and every pooled
     * arena released, once each; the pools stay empty and each class gets
     * a new current arena that no pool holds (NULL if creation fails).
     * Role names are not touched.
     */
    method FreeInternal(alloc: Allocator)
      requires Valid() && alloc.Valid() && Owns(alloc)
      modifies this, alloc
      ensures Valid() && alloc.Valid() && Owns(alloc)
      ensures names == old(names)
      ensures regset == Cleared(old(alloc.next), old(alloc.avail))
      ensures alloc.next == old(alloc.next) + Min(TYPE_LAST, old(alloc.avail))
      ensures alloc.avail == old(alloc.avail) - Min(TYPE_LAST, old(alloc.avail))
      ensures alloc.live == old(alloc.live) - PoolIdsBelow(old(regset), TYPE_LAST)
                            + Range(old(alloc.next), Min(TYPE_LAST, old(alloc.avail)))
    {
      ghost var rs0 := regset;
      ghost var live0 := alloc.live;
      ghost var next0 := alloc.next;
      ghost var avail0 := alloc.avail;
      assert forall a :: a in live0 ==> a < next0;
      var i := 0;
      while i < TYPE_LAST
        invariant 0 <= i <= TYPE_LAST
        invariant |regset| == TYPE_LAST && names == old(names)
        invariant alloc.Valid()
        invariant alloc.next == next0 + Min(i, avail0) && alloc.avail == avail0 - Min(i, avail0)
        invariant alloc.live == live0 - PoolIdsBelow(rs0, i) + Range(next0, Min(i, avail0))
        invariant forall t :: 0 <= t < i ==> regset[t] == Cleared(next0, avail0)[t]
        invariant forall t :: i <= t < TYPE_LAST ==> regset[t] == rs0[t]
      {
        var pool := regset[i].pool;
        ReleaseStep(rs0, live0, next0, i, Range(next0, Min(i, avail0)));
        alloc.ReleaseAll(pool);
        var a := alloc.Create();
        regset := regset[i := RegSet([], [], a)];
        i := i + 1;
      }
    }

    /**
     * r_reg_push: in class order, a new arena is created, made current and
     * put on top of the pool. The length of pool 0 is returned on success;
     * on the first failed creation 0 is returned, the classes before stay
     * pushed and the failing class's current arena is NULL.
     */
    method Push(alloc: Allocator) returns (n: nat)
      requires Valid() && alloc.Valid() && Owns(alloc)
      modifies this, alloc
      ensures Valid() && alloc.Valid() && Owns(alloc)
      ensures names == old(names)
      ensures regset == Pushed(old(regset), old(alloc.next), old(alloc.avail))
      ensures n == if old(alloc.avail) >= TYPE_LAST then |old(regset)[0].pool| + 1 else 0
      ensures alloc.next == old(alloc.next) + Min(TYPE_LAST, old(alloc.avail))
      ensures alloc.avail == old(alloc.avail) - Min(TYPE_LAST, old(alloc.avail))
      ensures alloc.live == old(alloc.live) + Range(old(alloc.next), Min(TYPE_LAST, old(alloc.avail)))
    {
      PushedOwned(regset, alloc.live, alloc.next, alloc.avail);
      var i := PushArenas(alloc);
      if i < TYPE_LAST {
        return 0;
      }
      n := |regset[0].pool|;
    }

    /**
     * The loop of r_reg_push: each class in turn gets a new arena as its
     * current one and, when the creation succeeded, on top of its pool;
     * the loop stops at the first failed creation, at class i.
     */
    method PushArenas(alloc: Allocator) returns (i: nat)
      requires |regset| == TYPE_LAST && alloc.Valid()
      modifies this, alloc
      ensures names == old(names) && alloc.Valid()
      ensures i == Min(TYPE_LAST, old(alloc.avail))
      ensures regset == Pushed(old(regset), old(alloc.next), old(alloc.avail))
      ensures alloc.next == old(alloc.next) + i && alloc.avail == old(alloc.avail) - i
      ensures alloc.live == old(alloc.live) + Range(old(alloc.next), i)
    {
      ghost var rs0 := regset;
      ghost var next0 := alloc.next;
      ghost var avail0 := alloc.avail;
      i := 0;
      while i < TYPE_LAST
        invariant 0 <= i <= TYPE_LAST && i <= avail0
        invariant names == old(names)
        invariant alloc.Valid()
        invariant alloc.next == next0 + i && alloc.avail == avail0 - i
        invariant alloc.live == old(alloc.live) + Range(next0, i)
        invariant regset == PushedBelow(rs0, next0, i)
      {
        var a := alloc.Create();
        regset := regset[i := regset[i].(arena := a)];
        if a.None? {
          break;
        }
        PushedBelowStep(rs0, next0, i);
        regset := regset[i := regset[i].(pool := [a.value] + regset[i].pool)];
        i := i + 1;
      }
      PushedStops(rs0, next0, avail0, i);
    }

    /**
     * r_reg_pop: in class order, a non-empty pool has its head removed and
     * released (once) and the current arena re-read from the new head; the
     * first empty pool ends the loop. A pool may become empty.
     */
    method Pop(alloc: Allocator)
      requires Valid() && alloc.Valid() && Owns(alloc)
      modifies this, alloc
      ensures Valid() && alloc.Valid() && Owns(alloc)
      ensures names == old(names)
      ensures regset == Popped(old(regset))
      ensures alloc.live == old(alloc.live) - PoppedIds(old(regset))
      ensures alloc.next == old(alloc.next) && alloc.avail == old(alloc.avail)
    {
      ghost var rs0 := regset;
      PoppedOwned(rs0, alloc.live);
      var i := 0;
      while i < TYPE_LAST
        invariant 0 <= i <= FirstEmpty(rs0, 0)
        invariant |regset| == TYPE_LAST && names == old(names)
        invariant alloc.Valid() && alloc.next == old(alloc.next) && alloc.avail == old(alloc.avail)
        invariant alloc.live == old(alloc.live) - HeadsBelow(rs0, i)
        invariant forall t :: 0 <= t < i ==> regset[t] == PopOne(rs0[t])
        invariant forall t :: i <= t < TYPE_LAST ==> regset[t] == rs0[t]
      {
        if |regset[i].pool| > 0 {
          assert HeadsBelow(rs0, i + 1) == HeadsBelow(rs0, i) + {rs0[i].pool[0]};
          alloc.Release(regset[i].pool[0]);
          var rest := regset[i].pool[1..];
          regset := regset[i := regset[i].(pool := rest, arena := Head(rest))];
          i := i + 1;
        } else {
          break;
        }
      }
      FirstEmptyAt(rs0, i);
      assert regset == Popped(rs0);
    }

    /**
     * r_reg_set_name: an in-range role is bound to name (replacing any
     * earlier binding) and true is returned; otherwise false and no change.
     */
    method SetName(role: int, name: string) returns (ok: bool)
      requires Valid()
      modifies this
      ensures Valid() && regset == old(regset)
      ensures ok <==> 0 <= role < NAME_LAST
      ensures names == Bind(old(names), role, name)
      ensures ok ==> GetName(role) == Some(name)
      ensures forall r :: r != role ==> GetName(r) == old(GetName(r))
    {
      if 0 <= role < NAME_LAST {
        names := names[role := Some(name)];
        ok := true;
      } else {
        ok := false;
      }
    }

    /** r_reg_get_name: the register bound to role; None for an unbound or out-of-range role. */
    function GetName(role: int): (r: Option<string>)
      reads this
      requires Valid()
      ensures !(0 <= role < NAME_LAST) ==> r == None
      ensures 0 <= role < NAME_LAST ==> r == names[role]
    {
      if 0 <= role < NAME_LAST then names[role] else None
    }

    /**
     * r_reg_get: the first item named name in the list of class rtype, or,
     * for TYPE_ALL, in the lists of all classes taken in class order.
     */
    function Get(name: string, rtype: int): (r: Option<Item>)
      reads this
      requires Valid()
      requires rtype == TYPE_ALL || 0 <= rtype < TYPE_LAST
      ensures r.Some? ==> r.value.name == Some(name)
      ensures r.Some? && rtype != TYPE_ALL ==> r.value.rtype == rtype && r.value in regset[rtype].regs
      ensures r.None? <==> forall t, k ::
        (0 <= t < TYPE_LAST && (rtype == TYPE_ALL || t == rtype) && 0 <= k < |regset[t].regs|) ==>
        regset[t].regs[k].name != Some(name)
      ensures r.Some? ==> exists t, k ::
        && 0 <= t < TYPE_LAST && (rtype == TYPE_ALL || t == rtype) && 0 <= k < |regset[t].regs|
        && r.value == regset[t].regs[k]
        && FirstInScan(regset, name, if rtype == TYPE_ALL then 0 else rtype, t, k)
    {
      var lo := if rtype == TYPE_ALL then 0 else rtype;
      var hi := if rtype == TYPE_ALL then TYPE_LAST else rtype + 1;
      match Locate(regset, name, lo, hi)
      case None => None
      case Some(p) =>
        assert FirstInScan(regset, name, lo, p.0, p.1);
        Some(regset[p.0].regs[p.1])
    }

    /** r_reg_get_list with the range check corrected: the list of an in-range class, else None. */
    function GetList(rtype: int): (r: Option<seq<Item>>)
      reads this
      requires Valid()
      ensures r.Some? <==> 0 <= rtype < TYPE_LAST
      ensures r.Some? ==> r.value == regset[rtype].regs
      ensures r.Some? ==> forall k :: 0 <= k < |r.value| ==> r.value[k].rtype == rtype
    {
      if rtype < 0 || rtype >= TYPE_LAST then None else Some(regset[rtype].regs)
    }

    /**
     * The newline case of the switch: a selected role is bound to the
     * word in buf; otherwise, after more than three columns, the word is
     * dispatched and a pending item with a name ends the line: it is
     * appended to the list of its class (dropped if the class is not a
     * class ordinal) and a new item starts.
     */
    method OnNewline(buf: array<char>, ghost st: PState, setname: int, word: nat, item: Item)
      returns (item': Item, ghost lists': seq<seq<Item>>)
      requires Valid() && WellFormed(st) && BufHolds(buf, st.tok)
      requires st.setname == setname && st.word == word && st.item == item && st.names == names
      requires forall t :: 0 <= t < TYPE_LAST ==> regset[t].regs == st.lists[t]
      modifies this
      ensures Valid()
      ensures Step(st, '\n') == Some(PState(-1, '\n', 0, 0, st.tok, item', names, lists'))
      ensures forall t :: 0 <= t < TYPE_LAST ==> regset[t] == old(regset[t]).(regs := lists'[t])
    {
      item', lists' := item, st.lists;
      if setname != -1 {
        var w := ReadToken(buf, st.tok);
        var bound := SetName(setname, w);
      } else if word > 3 {
        var w := ReadToken(buf, st.tok);
        item' := SetWord(item, word, w).0;
        if item'.name.Some? {
          if 0 <= item'.rtype < TYPE_LAST {
            var t := item'.rtype;
            regset := regset[t := regset[t].(regs := regset[t].regs + [item'])];
            lists' := st.lists[t := st.lists[t] + [item']];
          }
          item' := NEW_ITEM;
        }
      }
    }

    /**
     * One pass of the switch on a character that is neither '#' nor NUL,
     * on buf, the loop variables and the bank; the new values are those of
     * Step. When the character does not fit in buf nothing changes.
     */
    method Feed(buf: array<char>, ghost st: PState, c: char,
                setname: int, lastchar: char, chidx: nat, word: nat, item: Item)
      returns (ok: bool, setname': int, lastchar': char, chidx': nat, word': nat, item': Item,
               ghost tok': string, ghost lists': seq<seq<Item>>)
      requires Valid() && WellFormed(st) && buf.Length == BUF_SIZE && BufHolds(buf, st.tok)
      requires st == PState(setname, lastchar, chidx, word, st.tok, item, names, st.lists)
      requires forall t :: 0 <= t < TYPE_LAST ==> regset[t].regs == st.lists[t]
      requires c != '#' && c != '\0'
      modifies this, buf
      ensures Valid()
      ensures ok <==> Step(st, c).Some?
      ensures !ok ==> names == old(names) && regset == old(regset)
      ensures ok ==> Step(st, c) == Some(PState(setname', lastchar', chidx', word', tok', item', names, lists'))
      ensures ok ==> BufHolds(buf, tok')
      ensures ok ==> forall t :: 0 <= t < TYPE_LAST ==> regset[t] == old(regset[t]).(regs := lists'[t])
    {
      setname', lastchar', chidx', word', item', tok', lists' := setname, c, 0, word + 1, item, st.tok, st.lists;
      ok := true;
      if IsBlank(c) {
        setname', item' := OnBlank(buf, st, c, setname, lastchar, word, item);
      } else if c == '\n' {
        item', lists' := OnNewline(buf, st, setname, word, item);
        setname', word' := -1, 0;
      } else {
        ok, chidx', tok' := OnChar(buf, st, c, chidx);
        word' := word;
      }
    }

    /**
     * r_reg_set_profile_string: clears the bank as r_reg_free_internal
     * does, then runs the character loop over text. The return value, the
     * role names and the item lists are those of the reference run
     * ParseProfile; the pools and arenas are those the clearing left.
     */
    method SetProfileString(alloc: Allocator, text: string) returns (ok: bool)
      requires Valid() && alloc.Valid() && Owns(alloc)
      modifies this, alloc
      ensures Valid() && alloc.Valid() && Owns(alloc)
      ensures ok == ParseProfile(text, old(names)).ok
      ensures names == ParseProfile(text, old(names)).st.names
      ensures forall t :: 0 <= t < TYPE_LAST ==>
        regset[t] == Cleared(old(alloc.next), old(alloc.avail))[t].(regs := ParseProfile(text, old(names)).st.lists[t])
      ensures alloc.next == old(alloc.next) + Min(TYPE_LAST, old(alloc.avail))
      ensures alloc.avail == old(alloc.avail) - Min(TYPE_LAST, old(alloc.avail))
      ensures alloc.live == old(alloc.live) - PoolIdsBelow(old(regset), TYPE_LAST)
                            + Range(old(alloc.next), Min(TYPE_LAST, old(alloc.avail)))
    {
      FreeInternal(alloc);
      ok := ParseText(text);
    }

    /**
     * The character loop of r_reg_set_profile_string on a cleared bank:
     * comments are skipped, every other character up to the first NUL goes
     * through the switch, and a refused character ends the loop with false.
     */
    method ParseText(text: string) returns (ok: bool)
      requires Valid() && forall t :: 0 <= t < TYPE_LAST ==> regset[t].regs == []
      modifies this
      ensures Valid()
      ensures ok == ParseProfile(text, old(names)).ok
      ensures names == ParseProfile(text, old(names)).st.names
      ensures forall t :: 0 <= t < TYPE_LAST ==>
        regset[t] == old(regset[t]).(regs := ParseProfile(text, old(names)).st.lists[t])
    {
      ghost var target := ParseProfile(text, names);
      ghost var sets0 := regset;
      var buf := new char[BUF_SIZE];
      buf[0] := '\0';
      var setname: int, lastchar: char, chidx: nat, word: nat := -1, '\0', 0, 0;
      var item := NEW_ITEM;
      ghost var tok: string := "";
      ghost var lists: seq<seq<Item>> := seq(TYPE_LAST, _ => []);
      var i := 0;
      while i < |text| && text[i] != '\0'
        invariant 0 <= i <= |text|
        invariant Valid()
        invariant fresh(buf) && buf.Length == BUF_SIZE && BufHolds(buf, tok)
        invariant WellFormed(PState(setname, lastchar, chidx, word, tok, item, names, lists))
        invariant forall t :: 0 <= t < TYPE_LAST ==> regset[t] == sets0[t].(regs := lists[t])
        invariant Run(Strip(text[i..]), PState(setname, lastchar, chidx, word, tok, item, names, lists)) == target
        decreases |text| - i
      {
        if text[i] == '#' {
          i := SkipLine(text, i);
          continue;
        }
        ghost var st := PState(setname, lastchar, chidx, word, tok, item, names, lists);
        Advance(text, i, st);
        var stored;
        stored, setname, lastchar, chidx, word, item, tok, lists :=
          Feed(buf, st, text[i], setname, lastchar, chidx, word, item);
        if !stored {
          return false;
        }
        i := i + 1;
      }
      StripAtEnd(text, i);
      ok := true;
    }

    /**
     * r_reg_set_profile: the profile text is the file named by the caller
     * (slurped) or, when that cannot be read, the same name under the
     * plugin directory (fallback); with neither, false and no change.
     */
    method SetProfile(alloc: Allocator, slurped: Option<string>, fallback: Option<string>) returns (ok: bool)
      requires Valid() && alloc.Valid() && Owns(alloc)
      modifies this, alloc
      ensures Valid() && alloc.Valid() && Owns(alloc)
      ensures slurped.None? && fallback.None? ==> !ok && unchanged(this) && unchanged(alloc)
      ensures var text := if slurped.Some? then slurped else fallback;
        text.Some? ==>
          && ok == ParseProfile(text.value, old(names)).ok
          && names == ParseProfile(text.value, old(names)).st.names
          && (forall t :: 0 <= t < TYPE_LAST ==>
               regset[t] == Cleared(old(alloc.next), old(alloc.avail))[t].(regs := ParseProfile(text.value, old(names)).st.lists[t]))
          && alloc.next == old(alloc.next) + Min(TYPE_LAST, old(alloc.avail))
          && alloc.avail == old(alloc.avail) - Min(TYPE_LAST, old(alloc.avail))
          && alloc.live == old(alloc.live) - PoolIdsBelow(old(regset), TYPE_LAST)
                           + Range(old(alloc.next), Min(TYPE_LAST, old(alloc.avail)))
    {
      var text := if slurped.Some? then slurped else fallback;
      if text.None? {
        return false;
      }
      ok := SetProfileString(alloc, text.value);
    }
  }
}
