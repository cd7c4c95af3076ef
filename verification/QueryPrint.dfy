/**
 `stringify` of querystring.js as nested loops over keys and values.
 */
module QueryPrint {
  import opened QuerySpec

  lemma JoinOne(esc: string -> string, pairs: seq<(string, string)>, key: string, value: string)
    ensures JoinFields(esc, pairs + [(key, value)])
         == JoinFields(esc, pairs) + (if pairs == [] then "" else "&") + Field(esc, key, value)
  {
    hide Field;
    var all := pairs + [(key, value)];
    assert all[..|pairs|] == pairs;
  }

  // Every field holds a `=`, so the text is empty only without fields.
  lemma JoinEmpty(esc: string -> string, pairs: seq<(string, string)>)
    ensures JoinFields(esc, pairs) == "" <==> pairs == []
  {
    if pairs != [] {
      var n := |pairs| - 1;
      assert |Field(esc, pairs[n].0, pairs[n].1)| > 0;
    }
  }

  // The fields of one key, after the separator that sets them off from earlier ones.
  method AppendValues(esc: string -> string, fields0: string, key: string, values: seq<string>, ghost before: seq<(string, string)>)
    returns (fields: string)
    requires fields0 == JoinFields(esc, before)
    ensures fields == JoinFields(esc, before + KeyPairs(key, values))
  {
    hide Encode, JoinFields;
    fields := fields0;
    var ks := Encode(esc, key) + "=";
    ghost var all := KeyPairs(key, values);
    if |values| == 0 {
      assert before + all == before;
      return;
    }
    JoinEmpty(esc, before);
    if fields != "" { fields := fields + "&"; }
    var j := 0;
    while j < |values|
      invariant 0 <= j <= |values|
      invariant j == 0 ==> fields == fields0 + if before == [] then "" else "&"
      invariant j > 0 ==> fields == JoinFields(esc, before + all[..j])
    {
      ghost var soFar := before + all[..j];
      assert j == 0 ==> soFar == before;
      if j != 0 { fields := fields + "&"; }
      ghost var joined := fields;
      fields := fields + ks;
      fields := fields + Encode(esc, values[j]);
      assert fields == joined + Field(esc, key, values[j]);
      JoinOne(esc, soFar, key, values[j]);
      assert before + all[..j + 1] == soFar + [(key, values[j])];
      j := j + 1;
    }
    assert all[..j] == all;
  }

  // `keys` is the order in which the object lists its own keys.
  method Stringify(esc: string -> string, obj: Object, keys: seq<string>) returns (fields: string)
    requires forall k :: k in keys ==> k in obj
    ensures fields == QuerySpec.Stringify(esc, obj, keys)
  {
    hide JoinFields;
    fields := "";
    JoinEmpty(esc, []);
    var i := 0;
    while i < |keys|
      invariant 0 <= i <= |keys|
      invariant fields == QuerySpec.Stringify(esc, obj, keys[..i])
    {
      assert keys[..i + 1][..i] == keys[..i];
      fields := AppendValues(esc, fields, keys[i], List(obj[keys[i]]), ObjectPairs(obj, keys[..i]));
      i := i + 1;
    }
    assert keys[..i] == keys;
  }
}
