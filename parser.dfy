/**
 * The profile parser r_reg_set_profile_string as a reference function: the
 * state the character loop carries, one step of its switch, the comment
 * skipping in front of the switch, and the run over a whole text.
 */
module Parser {
  import opened Wrappers
  import opened Catalog
  import opened Fields

  /** Size of the parser's token buffer buf. */
  const BUF_SIZE := 256
  /** A character is refused when chidx is already above this value. */
  const MAX_CHIDX := 128

  predicate IsBlank(c: char) { c == ' ' || c == '\t' }

  /** The characters the switch handles specially; all others go to buf. */
  predicate IsSeparator(c: char) { IsBlank(c) || c == '\n' }

  /**
   * The parser's variables: setname, lastchar, chidx and word as in the
   * loop, tok the NUL-terminated string held in buf, item the pending item,
   * and the parts of the bank the loop writes (role names, item lists).
   */
  datatype PState = PState(
    setname: int,
    lastchar: char,
    chidx: nat,
    word: nat,
    tok: string,
    item: Item,
    names: seq<Option<string>>,
    lists: seq<seq<Item>>)

  /** The outcome of a run: the return value and the state reached. */
  datatype Outcome = Outcome(ok: bool, st: PState)

  /** Every listed item sits in the list of its own class and has a name. */
  predicate TypedLists(lists: seq<seq<Item>>)
  {
    forall t, j :: 0 <= t < |lists| && 0 <= j < |lists[t]| ==>
      lists[t][j].rtype == t && lists[t][j].name.Some?
  }

  /**
   * The parser's invariant: chidx never exceeds 129, so the writes
   * buf[chidx] stay below 130 < BUF_SIZE; a non-zero chidx is the length
   * of the token in buf; setname is a role or -1.
   */
  predicate WellFormed(st: PState)
  {
    && st.chidx <= MAX_CHIDX + 1
    && |st.tok| <= MAX_CHIDX + 1
    && (st.chidx == 0 || st.chidx == |st.tok|)
    && -1 <= st.setname < NAME_LAST
    && |st.names| == NAME_LAST
    && |st.lists| == TYPE_LAST
    && TypedLists(st.lists)
  }

  /** The state after the bank is cleared and before the first character. */
  function Init(names: seq<Option<string>>): (st: PState)
    requires |names| == NAME_LAST
    ensures WellFormed(st)
  {
    PState(-1, '\0', 0, 0, "", NEW_ITEM, names, seq(TYPE_LAST, _ => []))
  }

  /**
   * One pass of the switch on character c. None is the early return for a
   * character that does not fit in buf. A definition line whose class is
   * not a class ordinal is dropped (the source indexes past regset there).
   */
  function Step(st: PState, c: char): (r: Option<PState>)
    requires WellFormed(st)
    ensures r.None? <==> !IsSeparator(c) && st.chidx > MAX_CHIDX
    ensures r.Some? ==> WellFormed(r.value)
  {
    if IsBlank(c) then
      if st.word == 0 && |st.tok| > 0 && st.tok[0] == '=' then
        Some(st.(setname := RoleIndex(st.tok[1..]), chidx := 0, word := st.word + 1, lastchar := c))
      else if !IsBlank(st.lastchar) then
        Some(st.(item := SetWord(st.item, st.word, st.tok).0, chidx := 0, word := st.word + 1, lastchar := c))
      else
        Some(st.(chidx := 0, word := st.word + 1, lastchar := c))
    else if c == '\n' then
      var next := st.(chidx := 0, word := 0, setname := -1, lastchar := c);
      if st.setname != -1 then
        Some(next.(names := Bind(st.names, st.setname, st.tok)))
      else if st.word > 3 then
        var it := SetWord(st.item, st.word, st.tok).0;
        if it.name.None? then Some(next.(item := it))
        else if 0 <= it.rtype < TYPE_LAST then
          Some(next.(item := NEW_ITEM, lists := st.lists[it.rtype := st.lists[it.rtype] + [it]]))
        else
          Some(next.(item := NEW_ITEM))
      else
        Some(next)
    else if st.chidx > MAX_CHIDX then
      None
    else
      Some(st.(tok := st.tok[..st.chidx] + [c], chidx := st.chidx + 1, lastchar := c))
  }

  /** The switch applied to every character of s, stopping at the first refusal. */
  function Run(s: string, st: PState): (r: Outcome)
    requires WellFormed(st)
    ensures WellFormed(r.st)
    decreases |s|
  {
    if s == [] then Outcome(true, st)
    else
      match Step(st, s[0])
      case None => Outcome(false, st)
      case Some(next) => Run(s[1..], next)
  }

  /** Length of the comment at the front of s: up to the first newline or NUL. */
  function SkipComment(s: string): (r: nat)
    ensures r <= |s|
    ensures r == |s| || s[r] == '\n' || s[r] == '\0'
    ensures forall k :: 0 <= k < r ==> s[k] != '\n' && s[k] != '\0'
  {
    if s == [] || s[0] == '\n' || s[0] == '\0' then 0 else 1 + SkipComment(s[1..])
  }

  /**
   * The characters of a C string that reach the switch: everything before
   * the first NUL except comments, which run from '#' up to (not including)
   * the next newline.
   */
  function Strip(s: string): (r: string)
    ensures |r| <= |s|
    ensures forall k :: 0 <= k < |r| ==> r[k] != '#' && r[k] != '\0'
    decreases |s|
  {
    if s == [] || s[0] == '\0' then []
    else if s[0] == '#' then Strip(s[SkipComment(s)..])
    else [s[0]] + Strip(s[1..])
  }

  /** r_reg_set_profile_string on text, for a bank whose role names are names. */
  function ParseProfile(text: string, names: seq<Option<string>>): (r: Outcome)
    requires |names| == NAME_LAST
    ensures WellFormed(r.st)
  {
    Run(Strip(text), Init(names))
  }

  /** One ordinary character of the text is one step of the switch. */
  lemma Advance(text: string, i: nat, st: PState)
    requires i < |text| && text[i] != '#' && text[i] != '\0'
    requires WellFormed(st)
    ensures Run(Strip(text[i..]), st) ==
      match Step(st, text[i])
      case None => Outcome(false, st)
      case Some(next) => Run(Strip(text[i + 1..]), next)
  {
    var s := text[i..];
    assert s[0] == text[i] && s[1..] == text[i + 1..];
    var t := [text[i]] + Strip(text[i + 1..]);
    assert Strip(s) == t;
    assert t[0] == text[i] && t[1..] == Strip(text[i + 1..]);
  }

  /** A comment from position i up to position j contributes nothing. */
  lemma SkipsComment(text: string, i: nat, j: nat)
    requires i < j <= |text| && text[i] == '#'
    requires forall k :: i <= k < j ==> text[k] != '\n' && text[k] != '\0'
    requires j == |text| || text[j] == '\n' || text[j] == '\0'
    ensures Strip(text[i..]) == Strip(text[j..])
  {
    var s := text[i..];
    var r := SkipComment(s);
    assert r == j - i;
    assert s[r..] == text[j..];
  }

  /** At the end of the C string nothing is left for the switch. */
  lemma StripAtEnd(text: string, i: nat)
    requires i <= |text| && (i == |text| || text[i] == '\0')
    ensures Strip(text[i..]) == []
  {
  }

  /**
   * The C string held in buf: the characters before its first NUL, as
   * strdup, atoi and strcmp read it.
   */
  method CString(buf: array<char>) returns (s: string)
    requires exists k :: 0 <= k < buf.Length && buf[k] == '\0'
    ensures |s| < buf.Length && buf[|s|] == '\0'
    ensures s == buf[..|s|]
    ensures forall k :: 0 <= k < |s| ==> s[k] != '\0'
  {
    var n := 0;
    while buf[n] != '\0'
      invariant 0 <= n < buf.Length
      invariant forall k :: 0 <= k < n ==> buf[k] != '\0'
      invariant exists k :: n <= k < buf.Length && buf[k] == '\0'
      decreases buf.Length - n
    {
      n := n + 1;
    }
    s := buf[..n];
  }

  /** buf holds the C string tok: tok's characters, none of them NUL, then a NUL. */
  ghost predicate BufHolds(buf: array<char>, tok: string)
    reads buf
  {
    |tok| < buf.Length && buf[|tok|] == '\0' &&
    forall k :: 0 <= k < |tok| ==> buf[k] == tok[k] && tok[k] != '\0'
  }

  /** The C string read from buf is tok. */
  method ReadToken(buf: array<char>, ghost tok: string) returns (w: string)
    requires BufHolds(buf, tok)
    ensures w == tok
  {
    w := CString(buf);
  }

  /**
   * The blank case of the switch: a '=' word at column 0 selects a role,
   * otherwise the word is dispatched unless the previous character was a
   * blank too; the column advances either way.
   */
  method OnBlank(buf: array<char>, ghost st: PState, c: char, setname: int, lastchar: char, word: nat, item: Item)
    returns (setname': int, item': Item)
    requires IsBlank(c) && WellFormed(st) && BufHolds(buf, st.tok)
    requires st.setname == setname && st.lastchar == lastchar && st.word == word && st.item == item
    ensures Step(st, c) == Some(st.(setname := setname', item := item', chidx := 0, word := word + 1, lastchar := c))
  {
    setname', item' := setname, item;
    if word == 0 && buf[0] == '=' {
      var w := ReadToken(buf, st.tok);
      setname' := RoleIndex(w[1..]);
    } else if !IsBlank(lastchar) {
      var w := ReadToken(buf, st.tok);
      item' := SetWord(item, word, w).0;
    }
  }

  /**
   * The default case of the switch: the character is stored at buf[chidx]
   * and NUL after it, unless chidx is already above MAX_CHIDX.
   */
  method OnChar(buf: array<char>, ghost st: PState, c: char, chidx: nat) returns (ok: bool, chidx': nat, ghost tok': string)
    requires !IsSeparator(c) && c != '\0' && WellFormed(st) && BufHolds(buf, st.tok)
    requires buf.Length == BUF_SIZE && st.chidx == chidx
    modifies buf
    ensures ok <==> Step(st, c).Some?
    ensures !ok ==> buf[..] == old(buf[..])
    ensures ok ==> Step(st, c) == Some(st.(tok := tok', chidx := chidx', lastchar := c)) && BufHolds(buf, tok')
  {
    if chidx > MAX_CHIDX {
      return false, chidx, st.tok;
    }
    buf[chidx] := c;
    chidx' := chidx + 1;
    buf[chidx'] := '\0';
    tok' := st.tok[..chidx] + [c];
    ok := true;
  }

  /** The comment loop: from a '#' at i to the next newline or NUL (or the end). */
  method SkipLine(text: string, i: nat) returns (j: nat)
    requires i < |text| && text[i] == '#'
    ensures i < j <= |text| && (j == |text| || text[j] == '\n' || text[j] == '\0')
    ensures Strip(text[i..]) == Strip(text[j..])
  {
    j := i;
    while j < |text| && text[j] != '\0' && text[j] != '\n'
      invariant i <= j <= |text|
      invariant forall k :: i <= k < j ==> text[k] != '\n' && text[k] != '\0'
    {
      j := j + 1;
    }
    SkipsComment(text, i, j);
  }
}
