/**
 Keeping a recipient's capability token out of error output: the token is replaced in every string,
 key and nested value of a server's problem document.
 */
module Redaction {
  import opened Wrappers
  import opened Replacement

  /** A JSON value; an object is its entries in the order in which they are visited. */
  datatype Json =
    | Null
    | Bool(b: bool)
    | Number(n: real)
    | String(text: string)
    | Array(items: seq<Json>)
    | Object(fields: seq<Field>)

  datatype Field = Field(key: string, value: Json)

  predicate HoldsToken(value: Json, token: string) {
    match value
    case String(text) => Contains(text, token)
    case Array(items) => exists i :: 0 <= i < |items| && HoldsToken(items[i], token)
    case Object(fields) => exists i :: 0 <= i < |fields| && FieldHoldsToken(fields[i], token)
    case _ => false
  }

  predicate FieldHoldsToken(field: Field, token: string) {
    Contains(field.key, token) || HoldsToken(field.value, token)
  }

  predicate FieldsHoldToken(fields: seq<Field>, token: string) {
    exists i :: 0 <= i < |fields| && FieldHoldsToken(fields[i], token)
  }

  /** Sets a key: an entry with that key is overwritten where it stands, a new one is added. */
  function Insert(fields: seq<Field>, key: string, value: Json): seq<Field> {
    if fields == [] then [Field(key, value)]
    else if fields[0].key == key then [Field(key, value)] + fields[1..]
    else [fields[0]] + Insert(fields[1..], key, value)
  }

  function RedactJson(value: Json, token: string): Json
    decreases value, 0, 0
  {
    match value
    case String(text) => String(Redact(text, token))
    case Array(items) => Array(seq(|items|, i requires 0 <= i < |items| => RedactJson(items[i], token)))
    case Object(fields) => Object(RedactFields(fields, token))
    case _ => value
  }

  /** The entries put back one by one under their redacted keys. */
  function RedactFields(fields: seq<Field>, token: string): seq<Field>
    decreases fields, 1, |fields|
  {
    if fields == [] then []
    else
      var last := fields[|fields| - 1];
      Insert(RedactFields(fields[..|fields| - 1], token), Redact(last.key, token), RedactJson(last.value, token))
  }

  /** A redacted tree has the shape of the tree: texts are replaced, items stay in place, and nothing else changes. */
  lemma RedactedShape(value: Json, token: string)
    ensures value.String? ==> RedactJson(value, token) == String(Replace(value.text, token, "[REDACTED]"))
    ensures value.Array? ==>
      && RedactJson(value, token).Array? && |RedactJson(value, token).items| == |value.items|
      && forall i :: 0 <= i < |value.items| ==>
           RedactJson(value, token).items[i] == RedactJson(value.items[i], token)
    ensures value.Object? ==> RedactJson(value, token) == Object(RedactFields(value.fields, token))
    ensures value.Null? || value.Bool? || value.Number? ==> RedactJson(value, token) == value
  {
    hide Redact, Replace;
    if value.String? { RedactReplaces(value.text, token); }
  }

  // ----- Redaction removes the token -----

  lemma {:induction false} InsertClean(fields: seq<Field>, key: string, value: Json, token: string)
    requires !FieldsHoldToken(fields, token) && !Contains(key, token) && !HoldsToken(value, token)
    ensures !FieldsHoldToken(Insert(fields, key, value), token)
  {
    hide Contains, HoldsToken;
    if fields != [] {
      assert !FieldHoldsToken(fields[0], token);
      forall i | 0 <= i < |fields| - 1
        ensures !FieldHoldsToken(fields[1..][i], token)
      {
        assert !FieldHoldsToken(fields[i + 1], token);
      }
      if fields[0].key != key { InsertClean(fields[1..], key, value, token); }
    }
  }

  lemma RedactedClean(text: string, token: string)
    requires Leakproof(token, MARK)
    ensures !Contains(Redact(text, token), token)
  {
    RedactReplaces(text, token);
    LeakproofIsGone(text, token, MARK);
  }

  lemma {:induction false} JsonClean(value: Json, token: string)
    requires Leakproof(token, MARK)
    ensures !HoldsToken(RedactJson(value, token), token)
    decreases value, 0, 0
  {
    hide Leakproof, Redact, Contains;
    match value
    case String(text) => RedactedClean(text, token);
    case Array(items) =>
      forall i | 0 <= i < |items|
        ensures !HoldsToken(RedactJson(items[i], token), token)
      {
        JsonClean(items[i], token);
      }
    case Object(fields) => FieldsClean(fields, token);
    case _ =>
  }

  lemma {:induction false} FieldsClean(fields: seq<Field>, token: string)
    requires Leakproof(token, MARK)
    ensures !FieldsHoldToken(RedactFields(fields, token), token)
    decreases fields, 1, |fields|
  {
    hide Leakproof, Redact, Contains, HoldsToken, RedactJson;
    if fields != [] {
      var before, last := fields[..|fields| - 1], fields[|fields| - 1];
      FieldsClean(before, token);
      RedactedClean(last.key, token);
      JsonClean(last.value, token);
      InsertClean(RedactFields(before, token), Redact(last.key, token), RedactJson(last.value, token), token);
    }
  }

  ghost predicate AllJsonClean(token: string) {
    forall value :: !HoldsToken(RedactJson(value, token), token)
  }

  /** No JSON tree holds the token after redaction, exactly for leakproof tokens. */
  lemma JsonCleanExactlyWhen(token: string)
    ensures AllJsonClean(token) <==> Leakproof(token, MARK)
  {
    hide Leakproof, HoldsToken, RedactJson;
    if Leakproof(token, MARK) {
      forall value
        ensures !HoldsToken(RedactJson(value, token), token)
      {
        JsonClean(value, token);
      }
    }
    if AllJsonClean(token) {
      forall text
        ensures !Contains(Replace(text, token, MARK), token)
      {
        assert !HoldsToken(RedactJson(String(text), token), token);
        StringHolds(text, token);
        RedactReplaces(text, token);
      }
      GoneExactlyWhen(token, MARK);
    }
  }

  lemma StringHolds(text: string, token: string)
    ensures HoldsToken(RedactJson(String(text), token), token) <==> Contains(Redact(text, token), token)
  {
  }

  // ----- Redaction keeps everything else -----

  function Lookup(fields: seq<Field>, key: string): Option<Json> {
    if fields == [] then None
    else if fields[0].key == key then Some(fields[0].value)
    else Lookup(fields[1..], key)
  }

  lemma {:induction false} LookupInserted(fields: seq<Field>, key: string, value: Json, k: string)
    ensures Lookup(Insert(fields, key, value), k) == if k == key then Some(value) else Lookup(fields, k)
  {
    if fields != [] {
      assert ([Field(key, value)] + fields[1..])[1..] == fields[1..];
      if fields[0].key != key {
        LookupInserted(fields[1..], key, value, k);
        assert ([fields[0]] + Insert(fields[1..], key, value))[1..] == Insert(fields[1..], key, value);
      }
    }
  }

  /** The value of the last entry whose redacted key is the given one. */
  function LastRedactedTo(fields: seq<Field>, k: string, token: string): Option<Json> {
    if fields == [] then None
    else if Redact(fields[|fields| - 1].key, token) == k then Some(fields[|fields| - 1].value)
    else LastRedactedTo(fields[..|fields| - 1], k, token)
  }

  /**
   Under a redacted key stands the redacted value of the last entry whose key became that key, and no
   other key appears.
   */
  lemma {:induction false} LookupRedacted(fields: seq<Field>, k: string, token: string)
    ensures Lookup(RedactFields(fields, token), k)
         == match LastRedactedTo(fields, k, token)
            case None => None
            case Some(value) => Some(RedactJson(value, token))
  {
    hide Redact, RedactJson;
    if fields != [] {
      var before, last := fields[..|fields| - 1], fields[|fields| - 1];
      LookupRedacted(before, k, token);
      LookupInserted(RedactFields(before, token), Redact(last.key, token), RedactJson(last.value, token), k);
    }
  }

  predicate HasKey(fields: seq<Field>, key: string) {
    exists i :: 0 <= i < |fields| && fields[i].key == key
  }

  predicate UniqueKeys(fields: seq<Field>) {
    forall i, j :: 0 <= i < j < |fields| ==> fields[i].key != fields[j].key
  }

  /** Every object in the tree has each key once, as every object in memory does. */
  predicate Proper(value: Json) {
    match value
    case Array(items) => forall i :: 0 <= i < |items| ==> Proper(items[i])
    case Object(fields) => UniqueKeys(fields) && forall i :: 0 <= i < |fields| ==> Proper(fields[i].value)
    case _ => true
  }

  lemma {:induction false} InsertNew(fields: seq<Field>, key: string, value: Json)
    requires !HasKey(fields, key)
    ensures Insert(fields, key, value) == fields + [Field(key, value)]
  {
    if fields != [] {
      assert fields[0].key != key;
      forall i | 0 <= i < |fields| - 1
        ensures fields[1..][i].key != key
      {
        assert fields[i + 1].key != key;
      }
      InsertNew(fields[1..], key, value);
    }
  }

  /** A tree without the token is left as it is. */
  lemma {:induction false} CleanUnchanged(value: Json, token: string)
    requires Proper(value) && !HoldsToken(value, token)
    ensures RedactJson(value, token) == value
    decreases value, 0, 0
  {
    hide Contains;
    match value
    case Array(items) =>
      forall i | 0 <= i < |items|
        ensures RedactJson(items[i], token) == items[i]
      {
        assert Proper(items[i]) && !HoldsToken(items[i], token);
        CleanUnchanged(items[i], token);
      }
      assert RedactJson(value, token).items == items;
    case Object(fields) =>
      CleanFieldsUnchanged(fields, token);
    case _ =>
  }

  lemma {:induction false} CleanFieldsUnchanged(fields: seq<Field>, token: string)
    requires UniqueKeys(fields) && !FieldsHoldToken(fields, token)
    requires forall i :: 0 <= i < |fields| ==> Proper(fields[i].value)
    ensures RedactFields(fields, token) == fields
    decreases fields, 1, |fields|
  {
    hide Contains, HoldsToken, RedactJson, Proper;
    if fields != [] {
      var before, last := fields[..|fields| - 1], fields[|fields| - 1];
      assert !FieldHoldsToken(last, token);
      forall i | 0 <= i < |before|
        ensures !FieldHoldsToken(before[i], token)
      {
        assert !FieldHoldsToken(fields[i], token);
      }
      CleanFieldsUnchanged(before, token);
      CleanUnchanged(last.value, token);
      InsertNew(before, last.key, last.value);
      assert before + [last] == fields;
    }
  }

  // ----- The loops -----

  /** Redacts a value, its items and its entries. */
  method RedactTree(value: Json, token: string) returns (result: Json)
    ensures result == RedactJson(value, token)
    decreases value
  {
    hide Redact;
    match value
    case String(text) =>
      result := String(Redact(text, token));
    case Array(original) =>
      var items := original;
      for i := 0 to |items|
        invariant |items| == |original|
        invariant forall k :: 0 <= k < i ==> items[k] == RedactJson(original[k], token)
        invariant forall k :: i <= k < |items| ==> items[k] == original[k]
      {
        var item := RedactTree(original[i], token);
        items := items[i := item];
      }
      result := Array(items);
      assert items == RedactJson(value, token).items;
    case Object(original) =>
      var fields: seq<Field> := [];
      for i := 0 to |original|
        invariant fields == RedactFields(original[..i], token)
      {
        var item := RedactTree(original[i].value, token);
        fields := Insert(fields, Redact(original[i].key, token), item);
        assert original[..i + 1][..i] == original[..i];
      }
      assert original[..|original|] == original;
      result := Object(fields);
    case _ =>
      result := value;
  }
}
