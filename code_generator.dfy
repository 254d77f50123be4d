/**
 * Short-code generation (`randomString`): draw `length` letters from a
 * 62-symbol alphabet, look the string up among the table's short codes, and
 * draw again until it is free. The random draws are supplied by the caller:
 * a draw is the sequence of alphabet positions `random.choice` would pick.
 */
module CodeGenerator {
  import opened MappingStore

  predicate IsAlphanumeric(c: char) {
    'a' <= c <= 'z' || 'A' <= c <= 'Z' || '0' <= c <= '9'
  }

  /**
   * The p-th symbol of the alphabet string `abc...xyzABC...XYZ012...789`:
   * the 26 lower-case letters, then the 26 upper-case ones, then the 10 digits.
   */
  function Letter(p: nat): (c: char)
    requires p < AlphabetSize
    ensures IsAlphanumeric(c)
  {
    if p < 26 then ('a' as int + p) as char
    else if p < 52 then ('A' as int + (p - 26)) as char
    else ('0' as int + (p - 52)) as char
  }

  /** The number of symbols `random.choice` picks from. */
  const AlphabetSize: nat := 62

  /** The alphabet `letters` that `randomString` draws from. */
  const Letters: string := seq(AlphabetSize, p requires 0 <= p < AlphabetSize => Letter(p))

  /** The default code length. */
  const CodeLength: nat := 6

  /** One draw: `length` picks, each a position in the alphabet. */
  predicate IsDraw(d: seq<nat>, length: nat) {
    |d| == length && forall k :: 0 <= k < |d| ==> d[k] < AlphabetSize
  }

  predicate Draws(ds: seq<seq<nat>>, length: nat) {
    forall i :: 0 <= i < |ds| ==> IsDraw(ds[i], length)
  }

  /** A string of `length` symbols of `[a-zA-Z0-9]`. */
  predicate IsCode(s: string, length: nat) {
    |s| == length && forall k :: 0 <= k < |s| ==> IsAlphanumeric(s[k])
  }

  /** The string a draw spells: `''.join(letters[p] for p in d)`. */
  function Spell(d: seq<nat>): (s: string)
    requires forall k :: 0 <= k < |d| ==> d[k] < AlphabetSize
    ensures |s| == |d|
  {
    seq(|d|, k requires 0 <= k < |d| => Letter(d[k]))
  }

  /** The k-th symbol of a spelling is the alphabet's symbol at the k-th pick. */
  lemma SpellPicksFromAlphabet(d: seq<nat>, k: nat)
    requires forall j :: 0 <= j < |d| ==> d[j] < AlphabetSize
    requires k < |d|
    ensures d[k] < |Letters| && Spell(d)[k] == Letters[d[k]]
  {
  }

  /** Whatever the picks, a draw spells a code of the draw's length. */
  lemma SpellIsCode(d: seq<nat>, length: nat)
    requires IsDraw(d, length)
    ensures IsCode(Spell(d), length)
  {
    var s := Spell(d);
    forall k | 0 <= k < |s|
      ensures IsAlphanumeric(s[k])
    {
      assert s[k] == Letter(d[k]);
    }
  }

  /** A code is free when no row of the table carries it. */
  predicate Free(t: Table, code: string) {
    Find(t, ShortIs(code)).None?
  }

  /**
   * The index of the draw `randomString` returns: the first whose spelling
   * is free, or None when every draw is already taken.
   */
  function FirstFreeDraw(t: Table, draws: seq<seq<nat>>, length: nat): (r: Option<nat>)
    requires Draws(draws, length)
    ensures r.Some? ==> r.value < |draws| && Free(t, Spell(draws[r.value]))
    ensures r.Some? ==> forall j :: 0 <= j < r.value ==> !Free(t, Spell(draws[j]))
    ensures r.None? ==> forall j :: 0 <= j < |draws| ==> !Free(t, Spell(draws[j]))
  {
    if draws == [] then None
    else if Free(t, Spell(draws[0])) then Some(0)
    else match FirstFreeDraw(t, draws[1..], length)
      case None => None
      case Some(k) => Some(k + 1)
  }

  /** A free draw with only taken draws before it is the first free draw. */
  lemma FirstFreeDrawIs(t: Table, draws: seq<seq<nat>>, length: nat, i: nat)
    requires Draws(draws, length) && i < |draws|
    requires forall j :: 0 <= j < i ==> !Free(t, Spell(draws[j]))
    requires Free(t, Spell(draws[i]))
    ensures FirstFreeDraw(t, draws, length) == Some(i)
  {
    var r := FirstFreeDraw(t, draws, length);
    assert r.Some?;
    assert !(r.value < i);
    assert !(r.value > i);
  }

  /**
   * `randomString(cursor, length)`: tries the draws in order and returns the
   * first spelling that no row uses as its short code.
   */
  method RandomString(t: Table, draws: seq<seq<nat>>, length: nat) returns (code: Option<string>)
    requires Draws(draws, length)
    ensures code.Some? ==> IsCode(code.value, length) && Free(t, code.value)
    ensures code.Some? <==> FirstFreeDraw(t, draws, length).Some?
    ensures code.Some? ==> code.value == Spell(draws[FirstFreeDraw(t, draws, length).value])
  {
    var i := 0;
    while i < |draws|
      invariant 0 <= i <= |draws|
      invariant forall j :: 0 <= j < i ==> !Free(t, Spell(draws[j]))
    {
      var candidate := Spell(draws[i]);
      if Find(t, ShortIs(candidate)).None? {
        FirstFreeDrawIs(t, draws, length, i);
        SpellIsCode(draws[i], length);
        return Some(candidate);
      }
      i := i + 1;
    }
    assert FirstFreeDraw(t, draws, length).None?;
    return None;
  }

  /** The alphabet is exactly the 62 distinct symbols of `[a-zA-Z0-9]`. */
  lemma AlphabetIsAlphanumeric(c: char)
    ensures |Letters| == AlphabetSize == 62
    ensures forall i, j :: 0 <= i < j < |Letters| ==> Letters[i] != Letters[j]
    ensures c in Letters <==> IsAlphanumeric(c)
  {
    if IsAlphanumeric(c) {
      var p :=
        if 'a' <= c <= 'z' then c as int - 'a' as int
        else if 'A' <= c <= 'Z' then c as int - 'A' as int + 26
        else c as int - '0' as int + 52;
      assert Letters[p] == c;
    }
  }

  /**
   * The collision case: when the first draw is taken and the second is free,
   * the second draw's spelling is the code.
   */
  lemma SecondDrawAfterCollision(t: Table, draws: seq<seq<nat>>, length: nat)
    requires Draws(draws, length) && |draws| >= 2
    requires !Free(t, Spell(draws[0])) && Free(t, Spell(draws[1]))
    ensures FirstFreeDraw(t, draws, length) == Some(1)
  {
  }
}
