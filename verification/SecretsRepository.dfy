/** Host secrets as the JavaScript objects they are, and what the repository keeps of them. */
module SecretsRepository {
  import opened Base

  datatype Field = Username | Password | Token | PrivateKey | Passphrase

  const HOST_SECRET_KEYS: seq<Field> := [Username, Password, Token, PrivateKey, Passphrase]

  datatype JsValue = Undefined | Str(text: string)

  /** The own properties of an object; one of them may hold undefined. */
  type JsObject = map<Field, JsValue>

  /** Reading a property that an object does not have gives undefined. */
  function Get(o: JsObject, f: Field): JsValue
  {
    if f in o then o[f] else Undefined
  }

  /** `{...a, ...b}`: every own property of `b` overwrites, also one that holds undefined. */
  function Spread(a: JsObject, b: JsObject): JsObject
  {
    a + b
  }

  predicate Present(v: JsValue)
  {
    v.Str? && v.text != ""
  }

  /** The properties worth keeping. */
  function Normalized(o: JsObject): JsObject
  {
    map f | f in o && Present(o[f]) :: o[f]
  }

  /** `hasHostSecrets`. */
  predicate Has(o: JsObject)
  {
    exists f :: Present(Get(o, f))
  }

  lemma AllFields(f: Field)
    ensures f in HOST_SECRET_KEYS
  {
    assert HOST_SECRET_KEYS[0] == Username && HOST_SECRET_KEYS[1] == Password && HOST_SECRET_KEYS[2] == Token;
    assert HOST_SECRET_KEYS[3] == PrivateKey && HOST_SECRET_KEYS[4] == Passphrase;
  }

  /** `normalizeHostSecrets`: the loop over the known keys keeps exactly the non-empty texts. */
  method NormalizeHostSecrets(source: JsObject) returns (result: JsObject)
    ensures result == Normalized(source)
  {
    result := map[];
    for i := 0 to |HOST_SECRET_KEYS|
      invariant forall f :: f in result <==> f in HOST_SECRET_KEYS[..i] && Present(Get(source, f))
      invariant forall f :: f in result ==> result[f] == Get(source, f)
    {
      var item := Get(source, HOST_SECRET_KEYS[i]);
      if item.Undefined? || item.text == "" {
        continue;
      }
      result := result[HOST_SECRET_KEYS[i] := item];
    }
    forall f: Field ensures f in HOST_SECRET_KEYS[..|HOST_SECRET_KEYS|]
    {
      AllFields(f);
    }
  }

  // ----- the object that the environment gives -----

  const ENV_FIELDS: set<Field> := {Username, Password, PrivateKey, Passphrase}

  /** The literal of `collectEnvSecrets` has exactly these four properties, whatever their values. */
  type EnvSecrets = o: JsObject | o.Keys == ENV_FIELDS
    witness map[Username := Undefined, Password := Undefined, PrivateKey := Undefined, Passphrase := Undefined]

  /** What the repository holds after the merge of a stored record and the environment's object. */
  function Store(existing: Option<JsObject>, fromEnv: EnvSecrets): Option<JsObject>
  {
    Some(Normalized(Spread(if existing.Some? then existing.value else map[], fromEnv)))
  }

  function OrUndefined(v: JsValue): JsValue
  {
    if Present(v) then v else Undefined
  }

  lemma NormalizedGet(o: JsObject, f: Field)
    ensures Get(Normalized(o), f) == OrUndefined(Get(o, f))
  {
  }

  /**
   The four environment-backed fields are replaced wholesale, also by undefined, the token alone
   survives, nothing needs normalizing again, and the migration's verification never fails.
   */
  lemma MergeExact(existing: Option<JsObject>, fromEnv: EnvSecrets)
    ensures var h := Store(existing, fromEnv).value;
            && Normalized(h) == h && (Has(fromEnv) ==> Has(h))
            && (forall f :: f in ENV_FIELDS ==> Get(h, f) == OrUndefined(Get(fromEnv, f)))
            && Get(h, Token) == if existing.Some? then OrUndefined(Get(existing.value, Token)) else Undefined
  {
    var merged := Spread(if existing.Some? then existing.value else map[], fromEnv);
    forall f ensures Get(Normalized(merged), f) == OrUndefined(Get(merged, f))
    {
      NormalizedGet(merged, f);
    }
    if Has(fromEnv) {
      var f :| Present(Get(fromEnv, f));
      assert Present(Get(Normalized(merged), f));
    }
  }

  /** The object without its undefined and empty properties. */
  function OnlyPresent(existing: Option<JsObject>, fromEnv: EnvSecrets): JsObject
  {
    Normalized(Spread(if existing.Some? then existing.value else map[], Normalized(fromEnv)))
  }

  /**
   Leaving absent values out of the environment's object would give another record exactly when a
   stored field that the environment does not set is lost by the wholesale replacement.
   */
  lemma ReplacementLosesIff(existing: Option<JsObject>, fromEnv: EnvSecrets)
    ensures Store(existing, fromEnv).value != OnlyPresent(existing, fromEnv) <==>
              && existing.Some?
              && exists f :: f in ENV_FIELDS && Present(Get(existing.value, f)) && !Present(Get(fromEnv, f))
  {
    var stored := if existing.Some? then existing.value else map[];
    var a, b := Spread(stored, fromEnv), Spread(stored, Normalized(fromEnv));
    forall f ensures Get(Normalized(a), f) == OrUndefined(Get(a, f)) && Get(Normalized(b), f) == OrUndefined(Get(b, f))
    {
      NormalizedGet(a, f);
      NormalizedGet(b, f);
    }
    if f :| f in ENV_FIELDS && Present(Get(stored, f)) && !Present(Get(fromEnv, f)) {
      assert Get(Normalized(a), f) != Get(Normalized(b), f);
    } else {
      forall f ensures Get(Normalized(a), f) == Get(Normalized(b), f) { }
      SameGets(Normalized(a), Normalized(b));
    }
  }

  lemma SameGets(a: JsObject, b: JsObject)
    requires Normalized(a) == a && Normalized(b) == b && forall f :: Get(a, f) == Get(b, f)
    ensures a == b
  {
    forall f ensures f in a <==> f in b
    {
      assert f in Normalized(a) <==> Present(Get(a, f));
      assert f in Normalized(b) <==> Present(Get(b, f));
    }
    forall f | f in a ensures a[f] == b[f]
    {
      assert a[f] == Get(a, f) && b[f] == Get(b, f);
    }
  }

  /** The same four fields. */
  predicate SameSecrets(a: EnvSecrets, b: EnvSecrets)
  {
    Normalized(a) == Normalized(b)
  }

  lemma SameSecretsIff(a: EnvSecrets, b: EnvSecrets)
    ensures SameSecrets(a, b) <==> forall f :: f in ENV_FIELDS ==> OrUndefined(Get(a, f)) == OrUndefined(Get(b, f))
  {
    forall f ensures Get(Normalized(a), f) == OrUndefined(Get(a, f)) && Get(Normalized(b), f) == OrUndefined(Get(b, f))
    {
      NormalizedGet(a, f);
      NormalizedGet(b, f);
    }
    if forall f :: f in ENV_FIELDS ==> OrUndefined(Get(a, f)) == OrUndefined(Get(b, f)) {
      forall f ensures Get(Normalized(a), f) == Get(Normalized(b), f)
      {
        assert f !in ENV_FIELDS ==> f !in a && f !in b;
      }
      SameGets(Normalized(a), Normalized(b));
    }
  }

  /** Storing a second collection changes nothing exactly when its four fields are the same. */
  lemma StoreTwice(existing: Option<JsObject>, a: EnvSecrets, b: EnvSecrets)
    ensures Store(Store(existing, a), b) == Store(existing, a) <==> SameSecrets(a, b)
  {
    var once, twice := Store(existing, a).value, Store(Store(existing, a), b).value;
    MergeExact(existing, a);
    MergeExact(Some(once), b);
    SameSecretsIff(a, b);
    hide SameSecrets, Normalized, Has, Get;
    if forall f :: f in ENV_FIELDS ==> OrUndefined(Get(a, f)) == OrUndefined(Get(b, f)) {
      forall f ensures Get(once, f) == Get(twice, f)
      {
        assert f in ENV_FIELDS || f == Token;
      }
      SameGets(once, twice);
    }
  }
}
