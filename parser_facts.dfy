/**
 * What the profile parser promises, proved about the reference run:
 * runs compose, a word is collected into buf, a five-column line defines
 * one item, a role line binds a role, only newlines commit, items are
 * never taken back, and a run fails exactly when a word is too long.
 */
module ParserFacts {
  import opened Wrappers
  import opened Catalog
  import opened Fields
  import opened Parser

  /** The loop over s + t is the loop over s, then (if it went on) over t. */
  lemma {:induction false} RunAppend(s: string, t: string, st: PState)
    requires WellFormed(st)
    ensures Run(s + t, st) ==
      if Run(s, st).ok then Run(t, Run(s, st).st) else Run(s, st)
    decreases |s|
  {
    if s == [] {
      assert s + t == t;
    } else {
      assert (s + t)[0] == s[0] && (s + t)[1..] == s[1..] + t;
      match Step(st, s[0])
      case None =>
      case Some(next) => RunAppend(s[1..], t, next);
    }
  }

  /** A word: a non-empty run of characters the switch stores in buf. */
  predicate IsWord(w: string)
  {
    |w| > 0 && forall k :: 0 <= k < |w| ==> !IsSeparator(w[k])
  }

  /**
   * Characters of a word extend the token in buf one at a time, as long as
   * the token stays within MAX_CHIDX + 1 characters.
   */
  lemma {:induction false} ExtendToken(st: PState, w: string)
    requires WellFormed(st) && st.chidx == |st.tok| && |st.tok| + |w| <= MAX_CHIDX + 1
    requires forall k :: 0 <= k < |w| ==> !IsSeparator(w[k])
    ensures Run(w, st) == Outcome(true, st.(tok := st.tok + w, chidx := |st.tok| + |w|,
                                           lastchar := if w == [] then st.lastchar else w[|w| - 1]))
    decreases |w|
  {
    if w == [] {
      assert st.tok + w == st.tok;
    } else {
      assert st.tok[..st.chidx] == st.tok;
      var next := st.(tok := st.tok + [w[0]], chidx := st.chidx + 1, lastchar := w[0]);
      assert Step(st, w[0]) == Some(next);
      ExtendToken(next, w[1..]);
      assert st.tok + [w[0]] + w[1..] == st.tok + w;
    }
  }

  /** At the start of a column a word replaces whatever buf held. */
  lemma CollectWord(st: PState, w: string)
    requires WellFormed(st) && st.chidx == 0 && IsWord(w) && |w| <= MAX_CHIDX + 1
    ensures Run(w, st) == Outcome(true, st.(tok := w, chidx := |w|, lastchar := w[|w| - 1]))
  {
    assert !IsSeparator(w[0]);
    assert st.tok[..0] + [w[0]] == [w[0]];
    var next := st.(tok := [w[0]], chidx := 1, lastchar := w[0]);
    assert Step(st, w[0]) == Some(next);
    ExtendToken(next, w[1..]);
    assert [w[0]] + w[1..] == w;
    assert Run(w, st) == Run(w[1..], next);
  }

  /**
   * A word followed by a blank: the word is dispatched as column word of
   * the pending item (unless it is a '=' word at column 0) and the column
   * advances.
   */
  lemma WordThenBlank(st: PState, w: string)
    requires WellFormed(st) && st.chidx == 0 && IsWord(w) && |w| <= MAX_CHIDX + 1
    requires st.word != 0 || w[0] != '='
    ensures Run(w + " ", st) ==
      Outcome(true, st.(tok := w, chidx := 0, word := st.word + 1, lastchar := ' ',
                        item := SetWord(st.item, st.word, w).0))
  {
    RunAppend(w, " ", st);
    CollectWord(st, w);
    var mid := st.(tok := w, chidx := |w|, lastchar := w[|w| - 1]);
    assert Run(" ", mid) == Run([], Step(mid, ' ').value);
  }

  /** A word followed by a newline: one step of the newline case after the word. */
  lemma WordThenNewline(st: PState, w: string)
    requires WellFormed(st) && st.chidx == 0 && IsWord(w) && |w| <= MAX_CHIDX + 1
    ensures WellFormed(st.(tok := w, chidx := |w|, lastchar := w[|w| - 1]))
    ensures Run(w + "\n", st) ==
      Outcome(true, Step(st.(tok := w, chidx := |w|, lastchar := w[|w| - 1]), '\n').value)
  {
    RunAppend(w, "\n", st);
    CollectWord(st, w);
    var mid := st.(tok := w, chidx := |w|, lastchar := w[|w| - 1]);
    assert Run("\n", mid) == Run([], Step(mid, '\n').value);
  }

  /** The state at the start of a line: no role selected, column 0, empty column. */
  predicate LineStart(st: PState)
  {
    WellFormed(st) && st.chidx == 0 && st.word == 0 && st.setname == -1
  }

  /** A word short enough for buf. */
  predicate FitsBuf(w: string) { IsWord(w) && |w| <= MAX_CHIDX + 1 }

  /** The item a five-column line "class name size offset packed" describes. */
  function LineItem(w0: string, w1: string, w2: string, w3: string, w4: string): Item
  {
    Item(Some(w1), TypeByName(w0), FieldBits(w2), FieldBits(w3), FieldBits(w4))
  }

  /** A word and a blank in front of rest: the word fills the current column first. */
  lemma ColumnThen(st: PState, w: string, rest: string)
    requires WellFormed(st) && st.chidx == 0 && FitsBuf(w)
    requires st.word != 0 || w[0] != '='
    ensures WellFormed(st.(tok := w, chidx := 0, word := st.word + 1, lastchar := ' ',
                           item := SetWord(st.item, st.word, w).0))
    ensures Run(w + " " + rest, st) ==
      Run(rest, st.(tok := w, chidx := 0, word := st.word + 1, lastchar := ' ',
                    item := SetWord(st.item, st.word, w).0))
  {
    RunAppend(w + " ", rest, st);
    WordThenBlank(st, w);
  }

  /** Two words, each followed by a blank, in front of rest: they fill the next two columns. */
  lemma TwoColumnsThen(st: PState, wa: string, wb: string, rest: string)
    requires WellFormed(st) && st.chidx == 0 && FitsBuf(wa) && FitsBuf(wb)
    requires st.word != 0 || wa[0] != '='
    ensures WellFormed(st.(tok := wb, chidx := 0, word := st.word + 2, lastchar := ' ',
                           item := SetWord(SetWord(st.item, st.word, wa).0, st.word + 1, wb).0))
    ensures Run(wa + " " + wb + " " + rest, st) ==
      Run(rest, st.(tok := wb, chidx := 0, word := st.word + 2, lastchar := ' ',
                    item := SetWord(SetWord(st.item, st.word, wa).0, st.word + 1, wb).0))
  {
    var tail := wb + " " + rest;
    assert wa + " " + wb + " " + rest == wa + " " + tail;
    ColumnThen(st, wa, tail);
    var mid := st.(tok := wa, chidx := 0, word := st.word + 1, lastchar := ' ',
                   item := SetWord(st.item, st.word, wa).0);
    ColumnThen(mid, wb, rest);
  }

  /** Four words, each followed by a blank, fill columns 0 to 3 of the pending item. */
  lemma FourColumns(st: PState, w0: string, w1: string, w2: string, w3: string)
    requires LineStart(st) && FitsBuf(w0) && FitsBuf(w1) && FitsBuf(w2) && FitsBuf(w3) && w0[0] != '='
    ensures Run(w0 + " " + w1 + " " + w2 + " " + w3 + " ", st) ==
      Outcome(true, st.(tok := w3, word := 4, lastchar := ' ',
                        item := SetWord(SetWord(SetWord(SetWord(st.item, 0, w0).0, 1, w1).0, 2, w2).0, 3, w3).0))
  {
    var back := w2 + " " + w3 + " ";
    assert w0 + " " + w1 + " " + w2 + " " + w3 + " " == w0 + " " + w1 + " " + back;
    TwoColumnsThen(st, w0, w1, back);
    var s2 := st.(tok := w1, chidx := 0, word := st.word + 2, lastchar := ' ',
                  item := SetWord(SetWord(st.item, st.word, w0).0, st.word + 1, w1).0);
    assert back + [] == back;
    TwoColumnsThen(s2, w2, w3, []);
    var s4 := s2.(tok := w3, chidx := 0, word := s2.word + 2, lastchar := ' ',
                  item := SetWord(SetWord(s2.item, s2.word, w2).0, s2.word + 1, w3).0);
    assert Run([], s4) == Outcome(true, s4);
  }

  /**
   * A definition line "class name size offset packed": the item it
   * describes is appended to the list of its class when the class name is
   * one of the seven classes, and dropped otherwise; either way the next
   * line starts with a new item and nothing else changes.
   */
  lemma DefinitionLine(st: PState, w0: string, w1: string, w2: string, w3: string, w4: string)
    requires LineStart(st) && FitsBuf(w0) && FitsBuf(w1) && FitsBuf(w2) && FitsBuf(w3) && FitsBuf(w4)
    requires w0[0] != '='
    ensures var r := Run(w0 + " " + w1 + " " + w2 + " " + w3 + " " + w4 + "\n", st);
      var t := TypeByName(w0);
      && r.ok
      && LineStart(r.st) && r.st.tok == w4 && r.st.lastchar == '\n'
      && r.st.item == NEW_ITEM && r.st.names == st.names
      && r.st.lists == if 0 <= t < TYPE_LAST then st.lists[t := st.lists[t] + [LineItem(w0, w1, w2, w3, w4)]]
                       else st.lists
  {
    var head := w0 + " " + w1 + " " + w2 + " " + w3 + " ";
    assert w0 + " " + w1 + " " + w2 + " " + w3 + " " + w4 + "\n" == head + (w4 + "\n");
    FourColumns(st, w0, w1, w2, w3);
    var s4 := Run(head, st).st;
    RunAppend(head, w4 + "\n", st);
    WordThenNewline(s4, w4);
  }

  /**
   * The fourth column is only dispatched by the blank after it, and only a
   * line with more than four columns commits: a four-column line ending in
   * a newline leaves every list as it was.
   */
  lemma ShortLineNotCommitted(st: PState, w0: string, w1: string, w2: string, w3: string)
    requires LineStart(st) && FitsBuf(w0) && FitsBuf(w1) && FitsBuf(w2) && FitsBuf(w3) && w0[0] != '='
    ensures var r := Run(w0 + " " + w1 + " " + w2 + " " + w3 + "\n", st);
      r.ok && LineStart(r.st) && r.st.lists == st.lists && r.st.names == st.names
  {
    var head := w0 + " " + w1 + " " + w2 + " ";
    assert w0 + " " + w1 + " " + w2 + " " + w3 + "\n" == head + (w3 + "\n");
    var a0 := w0 + " ";
    var a1 := w1 + " ";
    var a2 := w2 + " ";
    assert head == a0 + (a1 + a2);
    WordThenBlank(st, w0);
    var s1 := Run(a0, st).st;
    RunAppend(a0, a1 + a2, st);
    WordThenBlank(s1, w1);
    var s2 := Run(a1, s1).st;
    RunAppend(a1, a2, s1);
    WordThenBlank(s2, w2);
    var s3 := Run(head, st).st;
    RunAppend(head, w3 + "\n", st);
    WordThenNewline(s3, w3);
  }

  /**
   * A role line "=role name": the role named by the two characters after
   * '=' is bound to name (an unknown role binds nothing); no list changes.
   */
  lemma RoleLine(st: PState, w0: string, w1: string)
    requires LineStart(st) && FitsBuf(w0) && FitsBuf(w1) && w0[0] == '='
    ensures var r := Run(w0 + " " + w1 + "\n", st);
      && r.ok && LineStart(r.st)
      && r.st.names == Bind(st.names, RoleIndex(w0[1..]), w1)
      && r.st.lists == st.lists
  {
    var a0 := w0 + " ";
    assert w0 + " " + w1 + "\n" == a0 + (w1 + "\n");
    RunAppend(a0, w1 + "\n", st);
    RunAppend(w0, " ", st);
    CollectWord(st, w0);
    var mid := st.(tok := w0, chidx := |w0|, lastchar := w0[|w0| - 1]);
    assert Run(" ", mid) == Run([], Step(mid, ' ').value);
    var s1 := Run(a0, st).st;
    assert s1.setname == RoleIndex(w0[1..]) && s1.chidx == 0;
    WordThenNewline(s1, w1);
  }

  /** Only the newline case writes role names or lists. */
  lemma {:induction false} NoNewlineNoCommit(s: string, st: PState)
    requires WellFormed(st) && '\n' !in s
    ensures Run(s, st).st.lists == st.lists && Run(s, st).st.names == st.names
    decreases |s|
  {
    if s != [] {
      assert s[0] != '\n' && '\n' !in s[1..];
      match Step(st, s[0])
      case None =>
      case Some(next) => NoNewlineNoCommit(s[1..], next);
    }
  }

  /**
   * Text after the last newline is never committed, whether the run ends
   * there or fails there.
   */
  lemma FinalLineDiscarded(s: string, tail: string, st: PState)
    requires WellFormed(st) && '\n' !in tail && Run(s, st).ok
    ensures Run(s + tail, st).st.lists == Run(s, st).st.lists
    ensures Run(s + tail, st).st.names == Run(s, st).st.names
  {
    RunAppend(s, tail, st);
    NoNewlineNoCommit(tail, Run(s, st).st);
  }

  /** Every list only grows: the lists of st are prefixes of those after the run. */
  lemma {:induction false} ListsGrow(s: string, st: PState)
    requires WellFormed(st)
    ensures forall t :: 0 <= t < TYPE_LAST ==> st.lists[t] <= Run(s, st).st.lists[t]
    decreases |s|
  {
    if s != [] {
      match Step(st, s[0])
      case None =>
      case Some(next) =>
        ListsGrow(s[1..], next);
        forall t | 0 <= t < TYPE_LAST
          ensures st.lists[t] <= Run(s, st).st.lists[t]
        {
          assert st.lists[t] <= next.lists[t];
        }
    }
  }

  /**
   * A failing run returns without undoing anything: whatever a successful
   * prefix committed is still in the lists.
   */
  lemma FailureKeepsCommitted(s: string, t: string, st: PState)
    requires WellFormed(st) && Run(s, st).ok
    ensures forall k :: 0 <= k < TYPE_LAST ==> Run(s, st).st.lists[k] <= Run(s + t, st).st.lists[k]
  {
    RunAppend(s, t, st);
    ListsGrow(t, Run(s, st).st);
  }

  /** The number of characters before the first separator. */
  function LeadRun(s: string): (n: nat)
    ensures n <= |s|
    ensures forall k :: 0 <= k < n ==> !IsSeparator(s[k])
    ensures n == |s| || IsSeparator(s[n])
  {
    if s == [] || IsSeparator(s[0]) then 0 else 1 + LeadRun(s[1..])
  }

  /** MAX_CHIDX + 2 consecutive non-separators starting at position i. */
  ghost predicate LongAt(s: string, i: int)
  {
    0 <= i && i + MAX_CHIDX + 2 <= |s| && forall k :: i <= k < i + MAX_CHIDX + 2 ==> !IsSeparator(s[k])
  }

  /** s holds a word longer than buf accepts (more than MAX_CHIDX + 1 characters). */
  ghost predicate HasLongWord(s: string)
  {
    exists i :: LongAt(s, i)
  }

  /** A long word either starts at the front or lies in the rest. */
  lemma LongWordCons(s: string)
    requires s != []
    ensures HasLongWord(s) <==> LeadRun(s) >= MAX_CHIDX + 2 || HasLongWord(s[1..])
  {
    if HasLongWord(s) {
      var i :| LongAt(s, i);
      if i == 0 {
        LeadRunAtLeast(s, MAX_CHIDX + 2);
      } else {
        assert LongAt(s[1..], i - 1);
      }
    }
    if LeadRun(s) >= MAX_CHIDX + 2 {
      assert LongAt(s, 0);
    }
    if HasLongWord(s[1..]) {
      var i :| LongAt(s[1..], i);
      assert LongAt(s, i + 1);
    }
  }

  /** n leading non-separators make LeadRun at least n. */
  lemma {:induction false} LeadRunAtLeast(s: string, n: nat)
    requires n <= |s| && forall k :: 0 <= k < n ==> !IsSeparator(s[k])
    ensures LeadRun(s) >= n
    decreases n
  {
    if n > 0 {
      LeadRunAtLeast(s[1..], n - 1);
    }
  }

  /**
   * A run from column chidx succeeds exactly when no word in s is longer
   * than buf accepts and the word it is in the middle of still fits.
   */
  lemma {:induction false} RunOkIffFit(s: string, st: PState)
    requires WellFormed(st)
    ensures Run(s, st).ok <==> !HasLongWord(s) && st.chidx + LeadRun(s) <= MAX_CHIDX + 1
    decreases |s|
  {
    if s == [] {
      assert !LongAt(s, 0);
      assert !HasLongWord(s);
    } else {
      LongWordCons(s);
      match Step(st, s[0])
      case None =>
      case Some(next) =>
        RunOkIffFit(s[1..], next);
        if IsSeparator(s[0]) {
          if LeadRun(s[1..]) >= MAX_CHIDX + 2 {
            LongWordCons(s[1..]);
            assert LongAt(s[1..], 0);
          }
        }
    }
  }

  /**
   * r_reg_set_profile_string returns true exactly when no word of the
   * text, with comments removed, is longer than MAX_CHIDX + 1 characters.
   */
  lemma ParseOkIffWordsFit(text: string, names: seq<Option<string>>)
    requires |names| == NAME_LAST
    ensures ParseProfile(text, names).ok <==> !HasLongWord(Strip(text))
  {
    RunOkIffFit(Strip(text), Init(names));
    var s := Strip(text);
    if s != [] && LeadRun(s) >= MAX_CHIDX + 2 {
      assert LongAt(s, 0);
    }
  }

  /**
   * The slot the newline case as written appends to: after a line of more
   * than four columns with no role selected, a named pending item goes to
   * regset[item->type], whatever its class is.
   */
  function CommitSlotAsWritten(st: PState): Option<int>
    requires WellFormed(st)
  {
    if st.setname == -1 && st.word > 3 then
      var it := SetWord(st.item, st.word, st.tok).0;
      if it.name.Some? then Some(it.rtype) else None
    else None
  }

  /**
   * Just before the newline of a definition line whose class word is not
   * one of the seven class names, the slot as written is TYPE_LAST (or
   * TYPE_ALL for "all"): outside the TYPE_LAST register sets.
   */
  lemma UnknownClassIndexesPastRegset(st: PState, w0: string, w1: string, w2: string, w3: string, w4: string)
    requires LineStart(st) && FitsBuf(w0) && FitsBuf(w1) && FitsBuf(w2) && FitsBuf(w3) && FitsBuf(w4)
    requires w0[0] != '=' && w0 !in TYPES
    ensures var before := Run(w0 + " " + w1 + " " + w2 + " " + w3 + " " + w4, st);
      && before.ok
      && CommitSlotAsWritten(before.st).Some?
      && CommitSlotAsWritten(before.st).value == (if w0 == "all" then TYPE_ALL else TYPE_LAST)
      && !(0 <= CommitSlotAsWritten(before.st).value < |before.st.lists|)
  {
    var head := w0 + " " + w1 + " " + w2 + " " + w3 + " ";
    assert w0 + " " + w1 + " " + w2 + " " + w3 + " " + w4 == head + w4;
    FourColumns(st, w0, w1, w2, w3);
    RunAppend(head, w4, st);
    CollectWord(Run(head, st).st, w4);
  }

  /**
   * The commit rule of the newline case, for any state: only with no role
   * selected, more than three columns seen and a named pending item is
   * anything committed, and then the item goes to the end of the list of
   * its class (the slot as written), when that slot is a register set. A
   * selected role is bound to the token instead. In every case buf keeps
   * its token and the next line starts at column 0.
   */
  lemma CommitRule(st: PState)
    requires WellFormed(st)
    ensures var r := Step(st, '\n').value;
      var slot := CommitSlotAsWritten(st);
      var it := SetWord(st.item, st.word, st.tok).0;
      && (slot.Some? && 0 <= slot.value < TYPE_LAST ==>
            r.lists == st.lists[slot.value := st.lists[slot.value] + [it]] && r.item == NEW_ITEM)
      && (slot.None? || !(0 <= slot.value < TYPE_LAST) ==> r.lists == st.lists)
      && r.names == (if st.setname != -1 then Bind(st.names, st.setname, st.tok) else st.names)
      && LineStart(r) && r.tok == st.tok && r.lastchar == '\n'
  {
  }

  /** Only a newline commits: any other accepted character changes no list and no name. */
  lemma CommitOnlyAtNewline(st: PState, c: char)
    requires WellFormed(st) && c != '\n' && Step(st, c).Some?
    ensures Step(st, c).value.lists == st.lists && Step(st, c).value.names == st.names
  {
  }

  /**
   * A blank after a blank advances the column without dispatching a word:
   * word counts every blank, so doubled blanks count towards word > 3.
   */
  lemma DoubleBlank(st: PState, c: char)
    requires WellFormed(st) && IsBlank(c) && IsBlank(st.lastchar)
    requires !(st.word == 0 && |st.tok| > 0 && st.tok[0] == '=')
    ensures Step(st, c) == Some(st.(chidx := 0, word := st.word + 1, lastchar := c))
  {
  }

  /**
   * buf is not cleared at a newline: a blank at the start of the next line
   * dispatches the previous token again, as the class word of column 0.
   */
  lemma StaleRedispatch(st: PState, c: char)
    requires WellFormed(st) && |st.tok| > 0 && st.tok[0] != '='
    requires IsBlank(c)
    ensures var r := Step(st, '\n').value;
      && Step(r, c).Some?
      && Step(r, c).value.item == SetWord(r.item, 0, st.tok).0
      && Step(r, c).value.item.rtype == TypeByName(st.tok)
  {
    CommitRule(st);
    var r := Step(st, '\n').value;
    assert r.word == 0 && r.tok == st.tok && !IsBlank(r.lastchar);
    assert Step(r, c) == Some(r.(item := SetWord(r.item, 0, st.tok).0, chidx := 0, word := 1, lastchar := c));
  }

  /** Text without '#' or NUL reaches the switch unchanged. */
  lemma {:induction false} StripPlain(a: string, x: string)
    requires forall k :: 0 <= k < |a| ==> a[k] != '#' && a[k] != '\0'
    ensures Strip(a + x) == a + Strip(x)
    decreases |a|
  {
    if a == [] {
      assert a + x == x;
    } else {
      assert (a + x)[0] == a[0] && (a + x)[1..] == a[1..] + x;
      StripPlain(a[1..], x);
      assert a + Strip(x) == [a[0]] + (a[1..] + Strip(x));
    }
  }

  /**
   * A comment c (from '#' up to, not including, the end of its line) is
   * removed before the switch sees the text.
   */
  lemma StripDropsComment(a: string, c: string, b: string)
    requires forall k :: 0 <= k < |a| ==> a[k] != '#' && a[k] != '\0'
    requires |c| > 0 && c[0] == '#' && forall k :: 0 <= k < |c| ==> c[k] != '\n' && c[k] != '\0'
    requires b == [] || b[0] == '\n' || b[0] == '\0'
    ensures Strip(a + c + b) == Strip(a + b)
  {
    assert a + c + b == a + (c + b);
    StripPlain(a, c + b);
    StripPlain(a, b);
    var cb := c + b;
    assert cb[0..] == cb && cb[|c|..] == b;
    SkipsComment(cb, 0, |c|);
  }

  /** Removing a comment does not change what r_reg_set_profile_string does. */
  lemma CommentIgnored(a: string, c: string, b: string, names: seq<Option<string>>)
    requires |names| == NAME_LAST
    requires forall k :: 0 <= k < |a| ==> a[k] != '#' && a[k] != '\0'
    requires |c| > 0 && c[0] == '#' && forall k :: 0 <= k < |c| ==> c[k] != '\n' && c[k] != '\0'
    requires b == [] || b[0] == '\n' || b[0] == '\0'
    ensures ParseProfile(a + c + b, names) == ParseProfile(a + b, names)
  {
    StripDropsComment(a, c, b);
  }

  /** The line "gpr eax 4 0 0" adds eax, 32 bits at offset 0, to the general-purpose list. */
  lemma ExampleDefinition(st: PState)
    requires LineStart(st)
    ensures var r := Run("gpr eax 4 0 0\n", st);
      r.ok && r.st.lists == st.lists[TYPE_GPR := st.lists[TYPE_GPR] + [Item(Some("eax"), TYPE_GPR, 32, 0, 0)]]
  {
    assert "gpr" + " " + "eax" + " " + "4" + " " + "0" + " " + "0" + "\n" == "gpr eax 4 0 0\n";
    DefinitionLine(st, "gpr", "eax", "4", "0", "0");
    assert TypeByName("gpr") == TYPE_GPR;
    FieldBitsExamples();
    FieldBitsShowNat(0);
    assert ShowNat(0) == "0";
  }

  /** The line "=pc eip" binds the program counter role to eip. */
  lemma ExampleRole(st: PState)
    requires LineStart(st)
    ensures var r := Run("=pc eip\n", st);
      r.ok && r.st.names == st.names[NAME_PC := Some("eip")] && r.st.lists == st.lists
  {
    assert "=pc" + " " + "eip" + "\n" == "=pc eip\n";
    assert "=pc"[1..] == ROLES[NAME_PC];
    RoleKeywordsDistinct(NAME_PC);
    RoleLine(st, "=pc", "eip");
  }

  /** A definition line with an unknown class is dropped: no list changes. */
  lemma ExampleUnknownClass(st: PState)
    requires LineStart(st)
    ensures var r := Run("xyz r0 4 0 0\n", st);
      r.ok && r.st.lists == st.lists
  {
    assert "xyz" + " " + "r0" + " " + "4" + " " + "0" + " " + "0" + "\n" == "xyz r0 4 0 0\n";
    assert TypeByName("xyz") == TYPE_LAST;
    DefinitionLine(st, "xyz", "r0", "4", "0", "0");
  }
}
