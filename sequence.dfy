/**
 * `TypingSequence` of src/training/sequence.rs: the keys of the sentence
 * being typed and a cursor, `progress`, on the next key to type.  The game
 * loop marks the key under the cursor as passed or missed, then moves the
 * cursor forward; the sequence is completed once the cursor is past the
 * last key.
 */
module TrainingSequence {
  import opened Results
  import opened Keys

  class TypingSequence {
    var keys: seq<Key>
    var progress: nat

    /** `TypingSequence::new`: an empty sequence, then `reset`. */
    constructor(sentence: string)
      ensures FreshKeys(keys, sentence) && progress == 0
    {
      keys := [];
      progress := 0;
      new;
      Reset(sentence);
    }

    /** Start over on `sentence`: the cursor on the first key, one fresh key per character; old keys are dropped. */
    method Reset(sentence: string)
      modifies this
      ensures FreshKeys(keys, sentence) && progress == 0
    {
      progress := 0;
      keys := [];
      for i := 0 to |sentence|
        invariant progress == 0
        invariant FreshKeys(keys, sentence[..i])
      {
        keys := keys + [Key(sentence[i], Unvalidated)];
      }
      assert sentence[..|sentence|] == sentence;
    }

    /** The key under the cursor, if the cursor is on one. */
    function CurrRef(): (r: Option<Key>)
      reads this
      ensures r.Some? <==> progress < |keys|
      ensures r.Some? ==> r.value == keys[progress]
    {
      if progress < |keys| then Some(keys[progress]) else None
    }

    /** `curr_ref_mut`: the mutable reference is modelled as the index of the key it refers to. */
    function CurrRefMut(): (r: Option<nat>)
      reads this
      ensures r.Some? <==> progress < |keys|
      ensures r.Some? ==> r.value == progress && r.value < |keys|
    {
      if progress < |keys| then Some(progress) else None
    }

    /** `is_completed`: the cursor is past the last key, so there is no current key. */
    predicate IsCompleted(): (r: bool)
      reads this
      ensures r <==> CurrRef().None?
      ensures !r ==> progress < |keys|
    {
      progress >= |keys|
    }

    /** Move the cursor one key on; the keys do not change. */
    method Forward()
      modifies this
      ensures progress == old(progress) + 1 && keys == old(keys)
    {
      progress := progress + 1;
    }

    /** Mark the key under the cursor as missed; the source unwraps, so the cursor must be on a key. */
    method Miss()
      requires !IsCompleted()
      modifies this
      ensures progress == old(progress) && Marked(keys, old(keys), progress, Missed)
    {
      var i := CurrRefMut().value;
      keys := keys[i := keys[i].(status := Missed)];
    }

    /** Mark the key under the cursor as passed; the source unwraps, so the cursor must be on a key. */
    method Pass()
      requires !IsCompleted()
      modifies this
      ensures progress == old(progress) && Marked(keys, old(keys), progress, Passed)
    {
      var i := CurrRefMut().value;
      keys := keys[i := keys[i].(status := Passed)];
    }
  }

  /** There is no key under the cursor exactly when the sequence is completed. */
  lemma NoCurrentIffCompleted(s: TypingSequence)
    ensures s.CurrRef().None? <==> s.IsCompleted()
    ensures s.CurrRefMut().None? <==> s.IsCompleted()
  {
  }

  /** A sequence fresh from an empty sentence is already completed. */
  lemma EmptySentenceCompleted(s: TypingSequence)
    requires FreshKeys(s.keys, "") && s.progress == 0
    ensures s.IsCompleted()
  {
  }
}
