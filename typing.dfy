/**
 * `Typing` of src/typing.rs, another copy of the typing state machine:
 * the keys of the sentence, the sentence itself (`raw`) and a cursor,
 * `current`.  Unlike `TypingSequence`, `forward` moves the cursor
 * by the UTF-16 length of the character under it, while the cursor indexes
 * characters: after a character outside the Basic Multilingual Plane the
 * next key is skipped.
 */
module TypingState {
  import opened Results
  import opened Keys

  /** `char::len_utf16`: one code unit, or a surrogate pair above U+FFFF. */
  function Utf16Len(ch: char): (n: nat)
    ensures 1 <= n <= 2
  {
    if (ch as int) < 0x1_0000 then 1 else 2
  }

  /** Where `forward` puts the cursor. */
  function Advance(keys: seq<Key>, current: nat): (next: nat)
    requires current < |keys|
    ensures current < next <= current + 2
  {
    current + Utf16Len(keys[current].code)
  }

  class Typing {
    var sentence: seq<Key>
    var current: nat
    var raw: string

    /** `Typing::new`: an empty state, then `reset`. */
    constructor(sentence: string)
      ensures raw == sentence && current == 0 && FreshKeys(this.sentence, sentence)
    {
      this.sentence := [];
      current := 0;
      raw := [];
      new;
      Reset(sentence);
    }

    /** Start over on `sentence`: keep its text, put the cursor first and make one fresh key per character. */
    method Reset(sentence: string)
      modifies this
      ensures raw == sentence && current == 0 && FreshKeys(this.sentence, sentence)
    {
      raw := sentence;
      current := 0;
      this.sentence := [];
      for i := 0 to |sentence|
        invariant raw == sentence && current == 0
        invariant FreshKeys(this.sentence, sentence[..i])
      {
        this.sentence := this.sentence + [Key(sentence[i], Unvalidated)];
      }
      assert sentence[..|sentence|] == sentence;
    }

    /** The key under the cursor, if the cursor is on one. */
    function CurrRef(): (r: Option<Key>)
      reads this
      ensures r.Some? <==> current < |sentence|
      ensures r.Some? ==> r.value == sentence[current]
    {
      if current < |sentence| then Some(sentence[current]) else None
    }

    /** `curr_ref_mut`: the mutable reference is modelled as the index of the key it refers to. */
    function CurrRefMut(): (r: Option<nat>)
      reads this
      ensures r.Some? <==> current < |sentence|
      ensures r.Some? ==> r.value == current && r.value < |sentence|
    {
      if current < |sentence| then Some(current) else None
    }

    /** Move the cursor by the UTF-16 length of its character; the source unwraps, so the cursor must be on a key. */
    method Forward()
      requires current < |sentence|
      modifies this
      ensures current == Advance(old(sentence), old(current))
      ensures sentence == old(sentence) && raw == old(raw)
    {
      current := current + Utf16Len(CurrRef().value.code);
    }

    /** Mark the key under the cursor as missed; the cursor must be on a key. */
    method Miss()
      requires current < |sentence|
      modifies this
      ensures current == old(current) && raw == old(raw)
      ensures Marked(sentence, old(sentence), current, Missed)
    {
      var i := CurrRefMut().value;
      sentence := sentence[i := sentence[i].(status := Missed)];
    }

    /** Mark the key under the cursor as passed; the cursor must be on a key. */
    method Pass()
      requires current < |sentence|
      modifies this
      ensures current == old(current) && raw == old(raw)
      ensures Marked(sentence, old(sentence), current, Passed)
    {
      var i := CurrRefMut().value;
      sentence := sentence[i := sentence[i].(status := Passed)];
    }
  }

  /** On a character of the Basic Multilingual Plane the cursor moves one key on, as in `TypingSequence`. */
  lemma AdvanceInPlane(keys: seq<Key>, current: nat)
    requires current < |keys| && (keys[current].code as int) < 0x1_0000
    ensures Advance(keys, current) == current + 1
  {
  }

  /**
   * On a character outside the Basic Multilingual Plane the cursor moves two
   * keys on, so the key right after it never comes under the cursor.
   */
  lemma AdvanceOutsidePlane(keys: seq<Key>, current: nat)
    requires current < |keys| && (keys[current].code as int) >= 0x1_0000
    ensures Advance(keys, current) == current + 2
  {
  }

  /**
   * On "a", U+1F600, "b" the cursor goes from the first key to the second,
   * then past the end: the third key never comes under the cursor.
   */
  lemma AstralCharSkipsNextKey(keys: seq<Key>)
    requires FreshKeys(keys, ['a', '\U{1F600}', 'b'])
    ensures Advance(keys, 0) == 1
    ensures Advance(keys, 1) == 3 == |keys|
  {
    assert keys[1].code == '\U{1F600}';
  }
}
