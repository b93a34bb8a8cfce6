/**
 * Register items and the conversion of one profile word into one item field
 * (r_reg_item_new, r_reg_set_word), with C's atoi as a total function.
 */
module Fields {
  import opened Wrappers
  import opened Catalog

  /**
   * An RRegItem: name (NULL until word 1 is seen), class ordinal, and the
   * size, offset and packed size in bits. Ints are unbounded here.
   */
  datatype Item = Item(name: Option<string>, rtype: int, size: int, offset: int, packedSize: int)

  /** r_reg_item_new: the zero-filled item (no name, class gpr, all sizes 0). */
  const NEW_ITEM := Item(None, TYPE_GPR, 0, 0, 0)

  predicate IsDigit(c: char) { '0' <= c <= '9' }

  /** C's isspace in the C locale: blank, or one of the codes 9 to 13. */
  predicate IsCSpace(c: char) { c == ' ' || '\t' <= c <= '\r' }

  predicate AllDigits(d: string) { forall k :: 0 <= k < |d| ==> IsDigit(d[k]) }

  /** The longest prefix of s made of decimal digits. */
  function LeadingDigits(s: string): (d: string)
    ensures d <= s && AllDigits(d)
    ensures |d| < |s| ==> !IsDigit(s[|d|])
  {
    if s != [] && IsDigit(s[0]) then [s[0]] + LeadingDigits(s[1..]) else []
  }

  function DigitValue(c: char): nat
    requires IsDigit(c)
  {
    c as int - '0' as int
  }

  /** The number a string of decimal digits spells, most significant first. */
  function DecimalValue(d: string): nat
    requires AllDigits(d)
  {
    if d == [] then 0 else DecimalValue(d[..|d| - 1]) * 10 + DigitValue(d[|d| - 1])
  }

  /** What remains of s once its leading white space is skipped. */
  function SkipSpaces(s: string): (t: string)
    ensures t == [] || !IsCSpace(t[0])
    ensures |t| <= |s| && t == s[|s| - |t|..]
  {
    if s != [] && IsCSpace(s[0]) then SkipSpaces(s[1..]) else s
  }

  /**
   * C's atoi: leading white space, an optional sign, then the longest run
   * of decimal digits; 0 when there are none.
   */
  function Atoi(s: string): (r: int)
    ensures var t := SkipSpaces(s);
      (t == [] || !(IsDigit(t[0]) || t[0] == '-' || t[0] == '+')) ==> r == 0
    ensures r < 0 ==> SkipSpaces(s) != [] && SkipSpaces(s)[0] == '-'
  {
    var t := SkipSpaces(s);
    if t != [] && t[0] == '-' then -(DecimalValue(LeadingDigits(t[1..])) as int)
    else if t != [] && t[0] == '+' then DecimalValue(LeadingDigits(t[1..]))
    else DecimalValue(LeadingDigits(t))
  }

  function DigitChar(k: nat): (c: char)
    requires k < 10
    ensures IsDigit(c) && DigitValue(c) == k
  {
    ('0' as int + k) as char
  }

  /** The decimal rendering of n, without sign or leading zeros. */
  function ShowNat(n: nat): (s: string)
    ensures |s| > 0 && AllDigits(s)
  {
    if n < 10 then [DigitChar(n)] else ShowNat(n / 10) + [DigitChar(n % 10)]
  }

  lemma {:induction false} DecimalValueShowNat(n: nat)
    ensures DecimalValue(ShowNat(n)) == n
  {
    if n >= 10 {
      var s := ShowNat(n);
      assert s[..|s| - 1] == ShowNat(n / 10);
      DecimalValueShowNat(n / 10);
    }
  }

  lemma {:induction false} LeadingDigitsOfDigits(d: string, rest: string)
    requires AllDigits(d)
    requires rest == [] || !IsDigit(rest[0])
    ensures LeadingDigits(d + rest) == d
  {
    if d != [] {
      assert (d + rest)[1..] == d[1..] + rest;
      LeadingDigitsOfDigits(d[1..], rest);
    } else {
      assert d + rest == rest;
    }
  }

  /** atoi of a run of digits followed by a non-digit is the value of the run. */
  lemma {:induction false} AtoiOfDigits(d: string, rest: string)
    requires |d| > 0 && AllDigits(d)
    requires rest == [] || !IsDigit(rest[0])
    ensures Atoi(d + rest) == DecimalValue(d)
    ensures Atoi("-" + d + rest) == -(DecimalValue(d) as int)
  {
    var p := d + rest;
    assert p[0] == d[0] && IsDigit(p[0]);
    assert SkipSpaces(p) == p;
    LeadingDigitsOfDigits(d, rest);
    var m := "-" + p;
    assert m[0] == '-' && m[1..] == p;
    assert SkipSpaces(m) == m;
    assert "-" + d + rest == m;
  }

  /**
   * atoi reads a rendered number back, also when the number is followed by
   * text that does not start with a digit, and honours a leading minus.
   */
  lemma AtoiShowNat(n: nat, rest: string)
    requires rest == [] || !IsDigit(rest[0])
    ensures Atoi(ShowNat(n) + rest) == n
    ensures Atoi("-" + ShowNat(n) + rest) == -(n as int)
  {
    AtoiOfDigits(ShowNat(n), rest);
    DecimalValueShowNat(n);
  }

  /**
   * The size/offset/packed-size convention: a word starting with '.' gives
   * bits directly, any other word is a byte count multiplied by 8.
   */
  function FieldBits(word: string): (r: int)
    ensures !(|word| > 0 && word[0] == '.') ==> r % 8 == 0
  {
    if |word| > 0 && word[0] == '.' then Atoi(word[1..]) else Atoi(word) * 8
  }

  /** A rendered byte count n is 8n bits; ".n" is n bits. */
  lemma FieldBitsShowNat(n: nat)
    ensures FieldBits(ShowNat(n)) == 8 * n
    ensures FieldBits("." + ShowNat(n)) == n
  {
    var s := ShowNat(n);
    assert s + [] == s;
    AtoiOfDigits(s, []);
    DecimalValueShowNat(n);
    assert Atoi(s) == n;
    assert IsDigit(s[0]);
    assert FieldBits(s) == Atoi(s) * 8;
    var d := "." + s;
    assert d[0] == '.' && d[1..] == s;
    assert FieldBits(d) == Atoi(s);
  }

  /** "4" gives 32 bits and ".7" gives 7 bits. */
  lemma FieldBitsExamples()
    ensures FieldBits("4") == 32
    ensures FieldBits(".7") == 7
  {
    FieldBitsShowNat(4);
    FieldBitsShowNat(7);
  }

  /**
   * r_reg_set_word: word number idx of a definition line goes into one
   * field of the pending item (0 class, 1 name, 2 size, 3 offset, 4 packed
   * size); any other idx is refused and changes nothing.
   */
  function SetWord(item: Item, idx: int, word: string): (r: (Item, bool))
    ensures r.1 <==> 0 <= idx <= 4
    ensures r.0.rtype == if idx == 0 then TypeByName(word) else item.rtype
    ensures r.0.name == if idx == 1 then Some(word) else item.name
    ensures r.0.size == if idx == 2 then FieldBits(word) else item.size
    ensures r.0.offset == if idx == 3 then FieldBits(word) else item.offset
    ensures r.0.packedSize == if idx == 4 then FieldBits(word) else item.packedSize
  {
    if idx == 0 then (item.(rtype := TypeByName(word)), true)
    else if idx == 1 then (item.(name := Some(word)), true)
    else if idx == 2 then (item.(size := FieldBits(word)), true)
    else if idx == 3 then (item.(offset := FieldBits(word)), true)
    else if idx == 4 then (item.(packedSize := FieldBits(word)), true)
    else (item, false)
  }
}
