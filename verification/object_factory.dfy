/** `DefaultObjectFactory`: builds a host object from a PHP class name and the decoded
    properties, by class name lookup and field assignment.

    Reflection is modelled by a registry: `Class.forName` looks a name up in it, and a
    loaded class is the chain of class declarations from the class itself up through its
    superclasses, as `getSuperclass()` walks it. */
module ObjectFactory {

  import opened Bytes
  import opened Results
  import opened Values
  import opened Tokens
  import opened Unserializer
  import opened HistoryFacts

  /** A declared field, with the two modifiers `setProperty` looks at. */
  datatype FieldDecl = FieldDecl(name: seq<byte>, isStatic: bool, isFinal: bool)

  /** One class of a superclass chain and the fields it declares itself. */
  datatype ClassDecl = ClassDecl(name: seq<byte>, fields: seq<FieldDecl>)

  /** What `Class.forName` finds: the superclass chain, most derived first, and whether
      `newInstance()` succeeds (a public no-argument constructor exists). */
  datatype LoadedClass = LoadedClass(chain: seq<ClassDecl>, instantiable: bool)

  type Registry = map<seq<byte>, LoadedClass>

  /** The configuration of a `DefaultObjectFactory`. `keyString` is `Mixed.toString()` of a
      property key, which is not part of this model. */
  datatype Config = Config(prefix: Option<seq<byte>>, registry: Registry, keyString: Value -> seq<byte>)

  // ---------------------------------------------------------------------------------
  // The package prefix

  /** The constructor: no prefix and the empty prefix both mean none; any other prefix is
      made to end in '.'. */
  function NormalizePrefix(prefix: Option<seq<byte>>): (r: Option<seq<byte>>)
    ensures r.None? <==> prefix.None? || prefix.value == []
    ensures r.Some? ==> |r.value| > 0 && r.value[|r.value| - 1] == DOT
    ensures r.Some? ==> prefix.Some? && |prefix.value| <= |r.value| && r.value[..|prefix.value|] == prefix.value
    ensures r.Some? ==> |r.value| == |prefix.value| + (if prefix.value[|prefix.value| - 1] == DOT then 0 else 1)
  {
    match prefix
    case None => None
    case Some(p) =>
      if |p| == 0 then None
      else if p[|p| - 1] == DOT then Some(p)
      else Some(p + [DOT])
  }

  /** Normalising twice is normalising once. */
  lemma {:induction false} NormalizePrefixIdempotent(prefix: Option<seq<byte>>)
    ensures NormalizePrefix(NormalizePrefix(prefix)) == NormalizePrefix(prefix)
  {
    var r := NormalizePrefix(prefix);
    if r.Some? {
      assert r.value[|r.value| - 1] == DOT;
    }
  }

  /** `getJavaClassName`: the PHP class name, behind the prefix when there is one. */
  function JavaClassName(prefix: Option<seq<byte>>, phpName: seq<byte>): (r: seq<byte>)
    ensures prefix.None? ==> r == phpName
    ensures prefix.Some? ==>
      |r| == |prefix.value| + |phpName| && r[..|prefix.value|] == prefix.value && r[|prefix.value|..] == phpName
  {
    match prefix
    case None => phpName
    case Some(p) => p + phpName
  }

  // ---------------------------------------------------------------------------------
  // findField

  /** `getDeclaredField`: the field of that name declared by the class itself. */
  function DeclaredField(c: ClassDecl, name: seq<byte>): (r: Option<FieldDecl>)
    ensures r.Some? ==> r.value in c.fields && r.value.name == name
    ensures r.None? ==> forall f | f in c.fields :: f.name != name
    decreases |c.fields|
  {
    if |c.fields| == 0 then None
    else if c.fields[0].name == name then Some(c.fields[0])
    else DeclaredField(ClassDecl(c.name, c.fields[1..]), name)
  }

  predicate Declares(c: ClassDecl, name: seq<byte>) {
    exists f | f in c.fields :: f.name == name
  }

  /** The walk of `findField` from chain position `i` up: the position of the declaring
      class and its field. */
  function FindFieldFrom(chain: seq<ClassDecl>, i: nat, name: seq<byte>): (r: Option<(nat, FieldDecl)>)
    requires i <= |chain|
    ensures r.Some? ==> i <= r.value.0 < |chain|
    decreases |chain| - i
  {
    if i == |chain| then None
    else match DeclaredField(chain[i], name)
      case Some(f) => Some((i, f))
      case None => FindFieldFrom(chain, i + 1, name)
  }

  /** `findField`: the field declared nearest to the instance's own class; when no class of
      the chain declares it, the failure raised for the instance's own class. */
  function FindField(chain: seq<ClassDecl>, name: seq<byte>): (r: Result<(nat, FieldDecl)>)
  {
    if |chain| == 0 then Fail(NoClass)
    else match FindFieldFrom(chain, 0, name)
      case Some(found) => Ok(found)
      case None => Fail(NoSuchField(chain[0].name, name))
  }

  lemma {:induction false} FindFieldFromNearest(chain: seq<ClassDecl>, i: nat, name: seq<byte>)
    requires i <= |chain|
    ensures var r := FindFieldFrom(chain, i, name);
      && (r.None? <==> forall j | i <= j < |chain| :: !Declares(chain[j], name))
      && (r.Some? ==> Declares(chain[r.value.0], name)
                      && r.value.1 in chain[r.value.0].fields && r.value.1.name == name
                      && forall j | i <= j < r.value.0 :: !Declares(chain[j], name))
    decreases |chain| - i
  {
    if i < |chain| {
      var d := DeclaredField(chain[i], name);
      if d.None? {
        FindFieldFromNearest(chain, i + 1, name);
      } else {
        assert Declares(chain[i], name);
      }
    }
  }

  /** Which field `findField` returns: the one declared by the nearest class of the chain
      that declares the name; when none does, the failure names the most derived class. */
  lemma {:induction false} FindFieldNearest(chain: seq<ClassDecl>, name: seq<byte>)
    ensures var r := FindField(chain, name);
      && (|chain| == 0 ==> r == Fail(NoClass))
      && (r.Ok? <==> exists j | 0 <= j < |chain| :: Declares(chain[j], name))
      && (r.Ok? ==> var (k, f) := r.value;
            k < |chain| && f in chain[k].fields && f.name == name
            && forall j | 0 <= j < k :: !Declares(chain[j], name))
      && (0 < |chain| && r.Fail? ==> r == Fail(NoSuchField(chain[0].name, name)))
  {
    if |chain| > 0 {
      FindFieldFromNearest(chain, 0, name);
    }
  }

  // ---------------------------------------------------------------------------------
  // setProperty and createObject

  /** The slot a property named `key` is written to, or the failure `setProperty` raises. */
  function Settable(chain: seq<ClassDecl>, key: seq<byte>): (r: Result<FieldSlot>)
    ensures r.Ok? ==> r.value.name == key
  {
    var found :- FindField(chain, key);
    var owner := chain[found.0].name;
    if found.1.isStatic then Fail(StaticField(owner, key))
    else if found.1.isFinal then Fail(FinalField(owner, key))
    else Ok(FieldSlot(owner, key))
  }

  /** `setProperty`: find the field, refuse a static one before a final one, then assign. */
  function SetProperty(inst: Instance, chain: seq<ClassDecl>, key: seq<byte>, value: Value): (r: Result<Instance>)
    ensures r.Ok? <==> Settable(chain, key).Ok?
    ensures r.Fail? ==> r.error == Settable(chain, key).error
  {
    var slot :- Settable(chain, key);
    Ok(inst.(fields := inst.fields[slot := value]))
  }

  /** Assigning a settable property writes its slot and leaves every other slot alone; the
      slot is the field of the nearest declaring class, which is neither static nor final. */
  lemma {:induction false} SetPropertyAssigns(inst: Instance, chain: seq<ClassDecl>, key: seq<byte>, value: Value)
    requires SetProperty(inst, chain, key, value).Ok?
    ensures var r := SetProperty(inst, chain, key, value).value;
      var slot := Settable(chain, key).value;
      && r.className == inst.className
      && r.fields.Keys == inst.fields.Keys + {slot}
      && r.fields[slot] == value
      && (forall other | other in inst.fields && other != slot :: r.fields[other] == inst.fields[other])
      && exists k | 0 <= k < |chain| ::
           chain[k].name == slot.owner
           && (exists f | f in chain[k].fields :: f.name == key && !f.isStatic && !f.isFinal)
           && forall j | 0 <= j < k :: !Declares(chain[j], key)
  {
    FindFieldNearest(chain, key);
    var (k, f) := FindField(chain, key).value;
    assert f in chain[k].fields;
  }

  /** Each property is a static field, a final field or missing: then the failure is that
      of `setProperty`, naming the class where the search stopped. */
  lemma {:induction false} SetPropertyRefuses(inst: Instance, chain: seq<ClassDecl>, key: seq<byte>, value: Value)
    requires 0 < |chain|
    ensures var r := SetProperty(inst, chain, key, value);
      var found := FindField(chain, key);
      && (found.Fail? ==> r == Fail(NoSuchField(chain[0].name, key)))
      && (found.Ok? && found.value.1.isStatic ==> r == Fail(StaticField(chain[found.value.0].name, key)))
      && (found.Ok? && !found.value.1.isStatic && found.value.1.isFinal ==>
            r == Fail(FinalField(chain[found.value.0].name, key)))
  {
    FindFieldNearest(chain, key);
  }

  /** The `for` loop of `createObject`: the properties in container order, stopping at the
      first one that cannot be set. */
  function SetAll(inst: Instance, chain: seq<ClassDecl>, props: seq<Entry>, keyString: Value -> seq<byte>)
    : (r: Result<Instance>)
    ensures r.Ok? ==> r.value.className == inst.className
    ensures r.Ok? ==> inst.fields.Keys <= r.value.fields.Keys
    ensures r.Ok? ==> forall i | 0 <= i < |props| :: Settable(chain, keyString(props[i].key)).Ok?
    decreases |props|
  {
    if |props| == 0 then Ok(inst)
    else
      var next :- SetProperty(inst, chain, keyString(props[0].key), props[0].value);
      SetAll(next, chain, props[1..], keyString)
  }

  /** The slot property `i` is written to, when it is settable. */
  predicate WritesSlot(chain: seq<ClassDecl>, props: seq<Entry>, keyString: Value -> seq<byte>, i: nat, slot: FieldSlot)
    requires i < |props|
  {
    Settable(chain, keyString(props[i].key)) == Ok(slot)
  }

  /** Property `j` of the remaining properties is property `j + 1` of all of them. */
  lemma {:induction false} WritesSlotTail(chain: seq<ClassDecl>, props: seq<Entry>, keyString: Value -> seq<byte>, slot: FieldSlot)
    requires 0 < |props|
    ensures forall j | 0 <= j < |props| - 1 ::
      WritesSlot(chain, props[1..], keyString, j, slot) == WritesSlot(chain, props, keyString, j + 1, slot)
    ensures NotWritten(chain, props, keyString, slot)
      <==> !WritesSlot(chain, props, keyString, 0, slot) && NotWritten(chain, props[1..], keyString, slot)
  {
    assert forall j | 0 <= j < |props| - 1 :: props[1..][j] == props[j + 1];
    if !WritesSlot(chain, props, keyString, 0, slot) && NotWritten(chain, props[1..], keyString, slot) {
      forall j | 0 <= j < |props| ensures !WritesSlot(chain, props, keyString, j, slot) {
        if j > 0 {
          assert WritesSlot(chain, props[1..], keyString, j - 1, slot) == WritesSlot(chain, props, keyString, j, slot);
        }
      }
    }
  }

  /** All properties go in exactly when every one of them is settable. */
  lemma {:induction false} SetAllOkIff(inst: Instance, chain: seq<ClassDecl>, props: seq<Entry>, keyString: Value -> seq<byte>)
    ensures SetAll(inst, chain, props, keyString).Ok?
      <==> forall i | 0 <= i < |props| :: Settable(chain, keyString(props[i].key)).Ok?
    decreases |props|
  {
    if |props| > 0 {
      var first := SetProperty(inst, chain, keyString(props[0].key), props[0].value);
      assert forall i | 0 < i < |props| :: props[1..][i - 1] == props[i];
      if first.Ok? {
        SetAllOkIff(first.value, chain, props[1..], keyString);
      }
    }
  }

  /** After the loop, every property's slot is present and holds the value of the last
      property written to it, and a slot no property writes keeps what it held. */
  lemma {:induction false} SetAllWrites(inst: Instance, chain: seq<ClassDecl>, props: seq<Entry>, keyString: Value -> seq<byte>)
    requires SetAll(inst, chain, props, keyString).Ok?
    ensures var r := SetAll(inst, chain, props, keyString).value;
      && (forall i | 0 <= i < |props| :: Settable(chain, keyString(props[i].key)).value in r.fields)
      && (forall i | 0 <= i < |props| && LastWrite(chain, props, keyString, i) ::
            r.fields[Settable(chain, keyString(props[i].key)).value] == props[i].value)
      && (forall slot | slot in inst.fields && NotWritten(chain, props, keyString, slot) ::
            slot in r.fields && r.fields[slot] == inst.fields[slot])
    decreases |props|
  {
    SetAllOkIff(inst, chain, props, keyString);
    if |props| > 0 {
      var key := keyString(props[0].key);
      SetPropertyAssigns(inst, chain, key, props[0].value);
      var next := SetProperty(inst, chain, key, props[0].value).value;
      var tail := props[1..];
      SetAllWrites(next, chain, tail, keyString);
      var r := SetAll(next, chain, tail, keyString).value;
      assert forall i | 0 < i < |props| :: tail[i - 1] == props[i];
      forall i | 0 <= i < |props| && LastWrite(chain, props, keyString, i)
        ensures r.fields[Settable(chain, keyString(props[i].key)).value] == props[i].value
      {
        var slot := Settable(chain, keyString(props[i].key)).value;
        WritesSlotTail(chain, props, keyString, slot);
        if i > 0 {
          assert LastWrite(chain, tail, keyString, i - 1);
        }
      }
      forall slot | slot in inst.fields && NotWritten(chain, props, keyString, slot)
        ensures slot in r.fields && r.fields[slot] == inst.fields[slot]
      {
        WritesSlotTail(chain, props, keyString, slot);
      }
    }
  }
  /** No property is written to `slot`. */
  predicate NotWritten(chain: seq<ClassDecl>, props: seq<Entry>, keyString: Value -> seq<byte>, slot: FieldSlot) {
    forall j | 0 <= j < |props| :: !WritesSlot(chain, props, keyString, j, slot)
  }

  /** Property `i` is settable and no later property is written to its slot. */
  predicate LastWrite(chain: seq<ClassDecl>, props: seq<Entry>, keyString: Value -> seq<byte>, i: nat)
    requires i < |props|
  {
    var slot := Settable(chain, keyString(props[i].key));
    slot.Ok? && forall j | i < j < |props| :: !WritesSlot(chain, props, keyString, j, slot.value)
  }

  /** `createObject`: load the class named by the prefix and the PHP name, instantiate it and
      set every property; any failure on the way is reported as the one wrapped failure
      "Unable to create object", carrying its cause. */
  function CreateObject(config: Config, className: seq<byte>, props: seq<Entry>): (r: Result<Instance>)
    ensures r.Fail? ==> r.error.CreationFailed?
    ensures r.Ok? ==> r.value.className == JavaClassName(config.prefix, className)
  {
    var name := JavaClassName(config.prefix, className);
    if name !in config.registry then Fail(CreationFailed(ClassNotFound(name)))
    else
      var loaded := config.registry[name];
      if !loaded.instantiable then Fail(CreationFailed(NotInstantiable(name)))
      else match SetAll(Instance(name, map[]), loaded.chain, props, config.keyString)
        case Ok(inst) => Ok(inst)
        case Fail(e) => Fail(CreationFailed(e))
  }

  /** An object is created exactly when its class is registered and instantiable and every
      property names a field that is neither static nor final; it then has one slot per
      distinct target field, holding the last value written there. */
  lemma {:induction false} CreateObjectIff(config: Config, className: seq<byte>, props: seq<Entry>)
    ensures var name := JavaClassName(config.prefix, className);
      var r := CreateObject(config, className, props);
      && (r.Ok? <==> name in config.registry && config.registry[name].instantiable
                     && forall i | 0 <= i < |props| :: Settable(config.registry[name].chain, config.keyString(props[i].key)).Ok?)
      && (name !in config.registry ==> r == Fail(CreationFailed(ClassNotFound(name))))
      && (r.Ok? ==> var chain := config.registry[name].chain;
            && (forall i | 0 <= i < |props| :: Settable(chain, config.keyString(props[i].key)).value in r.value.fields)
            && (forall i | 0 <= i < |props| && LastWrite(chain, props, config.keyString, i) ::
                  r.value.fields[Settable(chain, config.keyString(props[i].key)).value] == props[i].value)
            && forall slot | slot in r.value.fields ::
                 exists i | 0 <= i < |props| :: WritesSlot(chain, props, config.keyString, i, slot))
  {
    var name := JavaClassName(config.prefix, className);
    if name in config.registry && config.registry[name].instantiable {
      var chain := config.registry[name].chain;
      var empty := Instance(name, map[]);
      SetAllOkIff(empty, chain, props, config.keyString);
      if SetAll(empty, chain, props, config.keyString).Ok? {
        SetAllWrites(empty, chain, props, config.keyString);
        SetAllOnlyWrites(empty, chain, props, config.keyString);
      }
    }
  }

  /** Every slot the loop adds is the target of some property. */
  lemma {:induction false} SetAllOnlyWrites(inst: Instance, chain: seq<ClassDecl>, props: seq<Entry>, keyString: Value -> seq<byte>)
    requires SetAll(inst, chain, props, keyString).Ok?
    ensures forall slot | slot in SetAll(inst, chain, props, keyString).value.fields && slot !in inst.fields ::
      exists i | 0 <= i < |props| :: WritesSlot(chain, props, keyString, i, slot)
    decreases |props|
  {
    if |props| > 0 {
      var key := keyString(props[0].key);
      SetPropertyAssigns(inst, chain, key, props[0].value);
      var next := SetProperty(inst, chain, key, props[0].value).value;
      SetAllOnlyWrites(next, chain, props[1..], keyString);
      forall slot | slot in SetAll(inst, chain, props, keyString).value.fields && slot !in inst.fields
        ensures exists i | 0 <= i < |props| :: WritesSlot(chain, props, keyString, i, slot)
      {
        if slot in next.fields {
          assert WritesSlot(chain, props, keyString, 0, slot);
        } else {
          var i :| 0 <= i < |props[1..]| && WritesSlot(chain, props[1..], keyString, i, slot);
          assert WritesSlot(chain, props, keyString, i + 1, slot);
        }
      }
    }
  }

  /** `new DefaultObjectFactory(prefix)`: the prefix is normalised once, by the constructor. */
  function NewConfig(prefix: Option<seq<byte>>, registry: Registry, keyString: Value -> seq<byte>): (c: Config)
    ensures c.registry == registry && c.keyString == keyString
    ensures c.prefix.None? <==> prefix.None? || prefix.value == []
    ensures c.prefix.Some? ==> NormalizePrefix(c.prefix) == c.prefix
  {
    NormalizePrefixIdempotent(prefix);
    Config(NormalizePrefix(prefix), registry, keyString)
  }

  /** The class a factory built with constructor argument `prefix` loads for the PHP class
      `phpName`: the name itself without a prefix, otherwise behind the prefix and a '.',
      which is added only when the prefix does not end in one (`a` and `B` give `a.B`). */
  lemma {:induction false} NewConfigClassName(prefix: Option<seq<byte>>, registry: Registry,
                                              keyString: Value -> seq<byte>, phpName: seq<byte>, props: seq<Entry>)
    requires CreateObject(NewConfig(prefix, registry, keyString), phpName, props).Ok?
    ensures var name := CreateObject(NewConfig(prefix, registry, keyString), phpName, props).value.className;
      && (prefix.None? || prefix.value == [] ==> name == phpName)
      && (prefix.Some? && prefix.value != [] && prefix.value[|prefix.value| - 1] == DOT ==>
            name == prefix.value + phpName)
      && (prefix.Some? && prefix.value != [] && prefix.value[|prefix.value| - 1] != DOT ==>
            name == prefix.value + [DOT] + phpName)
  {
    var c := NewConfig(prefix, registry, keyString);
    var name := JavaClassName(c.prefix, phpName);
    if prefix.Some? && prefix.value != [] {
      var p := c.prefix.value;
      assert name == p + phpName;
      if prefix.value[|prefix.value| - 1] != DOT {
        assert p == prefix.value + [DOT];
      }
    }
  }

  /** The default factory as the decoder's object factory. */
  function AsFactory(config: Config): Factory {
    (name: seq<byte>, props: seq<Entry>) => CreateObject(config, name, props)
  }

  /** An object decoded with the default factory is an instance of the class that the
      prefix and the PHP class name name, holding the decoded properties as the factory
      sets them; when the factory fails, the decode fails with its wrapped failure. */
  lemma {:induction false} DecodeWithDefaultFactory(s: seq<byte>, config: Config, st: State, name: seq<byte>)
    requires |name| < TWO_31
    requires At(s, st.pos, [TAG_OBJECT, COLON] + RawToken(name))
    requires DecodeArray(s, Some(AsFactory(config)), st.(pos := st.pos + 2 + |RawToken(name)|)).Ok?
    ensures var a := DecodeArray(s, Some(AsFactory(config)), st.(pos := st.pos + 2 + |RawToken(name)|)).value;
      var created := CreateObject(config, name, a.1.arena[a.0.handle]);
      var r := DecodeValue(s, Some(AsFactory(config)), st);
      && (r.Ok? <==> created.Ok?)
      && (r.Ok? ==> r.value.0 == Host(created.value)
                    && created.value.className == JavaClassName(config.prefix, name))
      && (r.Fail? ==> r.error.CreationFailed?)
  {
    ObjectWithFactory(s, AsFactory(config), st, name);
  }
}
