/**
 * The `key` module that src/training/sequence.rs and src/typing.rs each
 * declare, identically: one character of the sentence to type and whether
 * it was typed right.
 */
module Keys {

  datatype Status = Unvalidated | Passed | Missed

  datatype Key = Key(code: char, status: Status)

  /** One `Unvalidated` key per character of `sentence`, in order. */
  ghost predicate FreshKeys(keys: seq<Key>, sentence: string) {
    && |keys| == |sentence|
    && forall k :: 0 <= k < |keys| ==> keys[k] == Key(sentence[k], Unvalidated)
  }

  /** `keys` is `before` with key `i` given `status`: same characters, every other key untouched. */
  ghost predicate Marked(keys: seq<Key>, before: seq<Key>, i: nat, status: Status) {
    && i < |before|
    && |keys| == |before|
    && keys[i] == Key(before[i].code, status)
    && forall k :: 0 <= k < |keys| && k != i ==> keys[k] == before[k]
  }
}
