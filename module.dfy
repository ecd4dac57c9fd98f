/**
 * The configuration logic of the chat module (Module.php): the class map
 * built from the default model classes and the user's overrides, the
 * namespace route of a short class name, and what `initContainer` derives
 * from each class-map entry (its short name, its model class and the query
 * class registered for it).
 */
module SimpleChatModule {
  import opened Php

  /**
   * A class definition as the Yii container accepts it: a class name, or a
   * configuration array whose `class` element names the class.
   */
  datatype Definition = ClassName(name: string) | Config(properties: map<string, string>)

  /** The exception `getRoute` throws. */
  datatype Exception = Exception(message: string)

  function UnknownClassName(name: string): Exception
  {
    Exception("Unknown configuration class name '" + name + "'")
  }

  const ModelsNamespace: string := "bubasuma\\simplechat\\models"

  /** The short class names the module lets its user configure, in order. */
  const Names: seq<string> := ["Message", "Conversation", "User", "UserProfile"]

  /** The default definition of every configurable class, in order. */
  const Defaults: Assoc<Definition> := [
    Entry("Message", ClassName("bubasuma\\simplechat\\models\\Message")),
    Entry("Conversation", ClassName("bubasuma\\simplechat\\models\\Conversation")),
    Entry("User", ClassName("bubasuma\\simplechat\\models\\User")),
    Entry("UserProfile", ClassName("bubasuma\\simplechat\\models\\UserProfile"))
  ]

  /** Each namespace with the short class names that live in it. */
  const Routes: Assoc<seq<string>> := [Entry(ModelsNamespace, Names)]

  /** The fully qualified name of class `name` in namespace `route`. */
  function Qualified(route: string, name: string): string
  {
    route + "\\" + name
  }

  /** The defaults name each configurable class once, in the order of Names. */
  lemma DefaultsWellFormed()
    ensures Keys(Defaults) == Names
    ensures DistinctKeys(Defaults)
  {
    assert Keys(Defaults) == Names;
  }

  /** No configurable class name holds a namespace separator. */
  lemma NamesUnqualified()
    ensures forall i :: 0 <= i < |Names| ==> '\\' !in Names[i]
  {
    forall i | 0 <= i < |Names| ensures '\\' !in Names[i] {
      var n := Names[i];
      assert forall j :: 0 <= j < |n| ==> 'A' <= n[j] <= 'z';
    }
  }

  /** Different names in one namespace have different qualified names. */
  lemma QualifiedInjective(route: string, x: string, y: string)
    requires Qualified(route, x) == Qualified(route, y)
    ensures x == y
  {
    var n := |route| + 1;
    assert x == Qualified(route, x)[n..];
    assert y == Qualified(route, y)[n..];
  }

  /**
   * getRoute: the first route whose list of names holds `name`, or the
   * exception for an unknown class name when no route holds it.
   */
  method GetRoute(routes: Assoc<seq<string>>, name: string) returns (r: Result<string, Exception>)
    ensures r.Ok? ==> exists i :: (0 <= i < |routes| && routes[i].key == r.value &&
      name in routes[i].value && forall j :: 0 <= j < i ==> name !in routes[j].value)
    ensures r.Err? <==> forall i :: 0 <= i < |routes| ==> name !in routes[i].value
    ensures r.Err? ==> r.error == UnknownClassName(name)
  {
    for i := 0 to |routes|
      invariant forall j :: 0 <= j < i ==> name !in routes[j].value
    {
      if name in routes[i].value {
        return Ok(routes[i].key);
      }
    }
    return Err(UnknownClassName(name));
  }

  /**
   * What buildClassMap computes, stated without its loop: it fails, naming
   * the first key of the user's map that is not a configurable class, when
   * there is one; otherwise it maps the qualified name of each configurable
   * class, in the order of the defaults, to the user's definition for it or
   * else the default one.
   */
  function ClassMapOf(userClassMap: Assoc<Definition>): Result<Assoc<Definition>, Exception>
  {
    match FirstKeyNotIn(userClassMap, Names)
    case Some(i) => Err(UnknownClassName(userClassMap[i].key))
    case None =>
      Ok(seq(|Defaults|, i requires 0 <= i < |Defaults| =>
        Entry(Qualified(ModelsNamespace, Defaults[i].key),
              GetOr(userClassMap, Defaults[i].key, Defaults[i].value))))
  }

  /** A class map built from every entry of the merged array is the one ClassMapOf describes. */
  lemma ClassMapOfMerged(userClassMap: Assoc<Definition>, classMap: Assoc<Definition>)
    requires DistinctKeys(userClassMap)
    requires DistinctKeys(Defaults)
    requires var m := Merge(Defaults, userClassMap);
      && |m| == |Defaults| == |classMap|
      && forall j :: 0 <= j < |m| ==> classMap[j] == Entry(Qualified(ModelsNamespace, m[j].key), m[j].value)
    ensures ClassMapOf(userClassMap) == Ok(classMap)
  {
    DefaultsWellFormed();
    MergeLayout(Defaults, userClassMap);
    assert FirstKeyNotIn(userClassMap, Names).None?;
    var expected := ClassMapOf(userClassMap).value;
    assert |expected| == |classMap|;
    forall j | 0 <= j < |classMap| ensures classMap[j] == expected[j] {
    }
    assert classMap == expected;
  }

  /** When buildClassMap meets a key that no route knows, ClassMapOf fails with that key. */
  lemma ClassMapOfFails(userClassMap: Assoc<Definition>, i: nat)
    requires DistinctKeys(userClassMap)
    requires var m := Merge(Defaults, userClassMap);
      && i < |m| && m[i].key !in Names
      && forall j :: 0 <= j < i ==> m[j].key in Names
    ensures ClassMapOf(userClassMap) == Err(UnknownClassName(Merge(Defaults, userClassMap)[i].key))
  {
    DefaultsWellFormed();
    MergeLayout(Defaults, userClassMap);
    assert |Defaults| <= i;
    assert i <= |Defaults|;
  }

  /** A name not yet copied gets a qualified key the class map does not hold yet. */
  lemma QualifiedFresh(mapping: Assoc<Definition>, classMap: Assoc<Definition>, i: nat)
    requires DistinctKeys(mapping) && i < |mapping| && |classMap| == i
    requires forall j :: 0 <= j < i ==> classMap[j].key == Qualified(ModelsNamespace, mapping[j].key)
    ensures Qualified(ModelsNamespace, mapping[i].key) !in Keys(classMap)
  {
    var key := Qualified(ModelsNamespace, mapping[i].key);
    forall j | 0 <= j < i ensures Keys(classMap)[j] != key {
      if Keys(classMap)[j] == key {
        QualifiedInjective(ModelsNamespace, mapping[j].key, mapping[i].key);
      }
    }
  }

  /** buildClassMap: the user's map merged over the defaults, each key prefixed with its route. */
  method BuildClassMap(userClassMap: Assoc<Definition>) returns (r: Result<Assoc<Definition>, Exception>)
    requires DistinctKeys(userClassMap)
    ensures r == ClassMapOf(userClassMap)
  {
    DefaultsWellFormed();
    var mapping := Merge(Defaults, userClassMap);
    var classMap: Assoc<Definition> := [];
    for i := 0 to |mapping|
      invariant |classMap| == i
      invariant DistinctKeys(classMap)
      invariant forall j :: 0 <= j < i ==> mapping[j].key in Names
      invariant forall j :: 0 <= j < i ==>
        classMap[j] == Entry(Qualified(ModelsNamespace, mapping[j].key), mapping[j].value)
    {
      var route := GetRoute(Routes, mapping[i].key);
      if route.Err? {
        assert Routes[0].value == Names;
        ClassMapOfFails(userClassMap, i);
        return Err(route.error);
      }
      assert route.value == ModelsNamespace;
      QualifiedFresh(mapping, classMap, i);
      classMap := Put(classMap, Qualified(route.value, mapping[i].key), mapping[i].value);
    }
    MergeLayout(Defaults, userClassMap);
    assert |mapping| == |Defaults|;
    ClassMapOfMerged(userClassMap, classMap);
    return Ok(classMap);
  }

  /** `substr($class, strrpos($class, '\\') + 1)`, where a missing backslash makes `strrpos` false, i.e. 0. */
  function ShortName(cls: string): string
  {
    var start := match LastIndexOf(cls, '\\') case Some(p) => p + 1 case None => 1;
    Substr(cls, start)
  }

  /** The class the container will instantiate for a definition. */
  function ModelClass(d: Definition): Option<string>
  {
    match d
    case ClassName(c) => Some(c)
    case Config(properties) => if "class" in properties then Some(properties["class"]) else None
  }

  /** The short names for which initContainer registers a query class. */
  const QueryNames: seq<string> := ["Message", "Conversation"]

  /** A query class registered with the container, built by the model class's `find()`. */
  datatype QueryFactory = QueryFactory(queryClass: string, modelClass: Option<string>)

  function QueryClass(name: string): string
  {
    ModelsNamespace + "\\" + name + "Query"
  }

  /** The query classes initContainer registers for the entries of a class map, in order. */
  function QueryFactories(classMap: Assoc<Definition>): seq<QueryFactory>
  {
    if classMap == [] then []
    else
      var n := |classMap| - 1;
      var name := ShortName(classMap[n].key);
      QueryFactories(classMap[..n]) +
        if name in QueryNames then [QueryFactory(QueryClass(name), ModelClass(classMap[n].value))] else []
  }

  /**
   * Every registered query class comes from an entry whose short name is
   * Message or Conversation, and is built by that entry's model class.
   */
  lemma {:induction false} QueryFactoriesOnlyForQueryNames(classMap: Assoc<Definition>)
    ensures forall f :: f in QueryFactories(classMap) ==> exists i :: (0 <= i < |classMap| &&
      ShortName(classMap[i].key) in QueryNames &&
      f == QueryFactory(QueryClass(ShortName(classMap[i].key)), ModelClass(classMap[i].value)))
  {
    if classMap != [] {
      var n := |classMap| - 1;
      QueryFactoriesOnlyForQueryNames(classMap[..n]);
      assert forall i :: 0 <= i < n ==> classMap[..n][i] == classMap[i];
    }
  }

  /**
   * The values initContainer computes for the container: the model class of
   * every class-map entry, under the same key, and the query classes it
   * registers. The container calls themselves are not part of this model.
   */
  method PlanContainer(classMap: Assoc<Definition>)
    returns (modelClassMap: Assoc<Option<string>>, factories: seq<QueryFactory>)
    requires DistinctKeys(classMap)
    ensures |modelClassMap| == |classMap|
    ensures forall i :: 0 <= i < |classMap| ==>
      modelClassMap[i] == Entry(classMap[i].key, ModelClass(classMap[i].value))
    ensures factories == QueryFactories(classMap)
  {
    modelClassMap, factories := [], [];
    for i := 0 to |classMap|
      invariant |modelClassMap| == i
      invariant DistinctKeys(modelClassMap)
      invariant forall j :: 0 <= j < i ==>
        modelClassMap[j] == Entry(classMap[j].key, ModelClass(classMap[j].value))
      invariant factories == QueryFactories(classMap[..i])
    {
      var cls := classMap[i].key;
      var model := ModelClass(classMap[i].value);
      var name := ShortName(cls);
      KeyNotYetCopied(classMap, modelClassMap, i);
      modelClassMap := Put(modelClassMap, cls, model);
      QueryFactoriesPrefix(classMap, i);
      if name in QueryNames {
        factories := factories + [QueryFactory(QueryClass(name), model)];
      }
    }
    assert classMap[..|classMap|] == classMap;
  }

  /** The key of entry `i` is not among the keys copied from the entries before it. */
  lemma KeyNotYetCopied<V, W>(source: Assoc<V>, copy: Assoc<W>, i: nat)
    requires DistinctKeys(source) && i < |source| && |copy| == i
    requires forall j :: 0 <= j < i ==> copy[j].key == source[j].key
    ensures source[i].key !in Keys(copy)
  {
    forall j | 0 <= j < i ensures Keys(copy)[j] != source[i].key {
      assert source[j].key != source[i].key;
    }
  }

  /** Extending a prefix of a class map by one entry extends its query classes accordingly. */
  lemma QueryFactoriesPrefix(classMap: Assoc<Definition>, i: nat)
    requires i < |classMap|
    ensures var name := ShortName(classMap[i].key);
      QueryFactories(classMap[..i + 1]) == QueryFactories(classMap[..i]) +
        if name in QueryNames then [QueryFactory(QueryClass(name), ModelClass(classMap[i].value))] else []
  {
    assert classMap[..i + 1][..i] == classMap[..i];
  }

  /** The short name of a qualified class name is the name it was qualified from. */
  lemma ShortNameOfQualified(route: string, name: string)
    requires '\\' !in name
    ensures ShortName(Qualified(route, name)) == name
  {
    var cls := Qualified(route, name);
    var n := |route|;
    assert cls[n] == '\\';
    var last := LastIndexOf(cls, '\\');
    LastIndexOfIsLast(cls, '\\');
    assert last.Some?;
    assert last.value == n by {
      assert forall j :: n < j < |cls| ==> cls[j] == name[j - n - 1];
    }
    assert cls[n + 1..] == name;
  }

  /**
   * Without a backslash `strrpos` returns false, which `+ 1` turns into 1:
   * the "short name" then drops the first character.
   */
  lemma ShortNameWithoutNamespace(cls: string)
    requires '\\' !in cls && cls != []
    ensures ShortName(cls) == cls[1..]
  {
    LastIndexOfIsLast(cls, '\\');
    assert LastIndexOf(cls, '\\').None?;
  }

  /** buildClassMap fails exactly when the user's map holds a key that is not a configurable class. */
  lemma ClassMapFailsOnUnknownName(userClassMap: Assoc<Definition>)
    ensures ClassMapOf(userClassMap).Err? <==> exists k :: k in Keys(userClassMap) && k !in Names
    ensures ClassMapOf(userClassMap).Err? ==> exists k :: (k in Keys(userClassMap) && k !in Names &&
      ClassMapOf(userClassMap).error == UnknownClassName(k))
  {
    match FirstKeyNotIn(userClassMap, Names)
    case Some(i) =>
      assert userClassMap[i].key in Keys(userClassMap);
    case None =>
  }

  /** With no configuration, the class map holds the four default classes under their qualified names. */
  lemma DefaultClassMap()
    ensures ClassMapOf([]) == Ok([
      Entry("bubasuma\\simplechat\\models\\Message", ClassName("bubasuma\\simplechat\\models\\Message")),
      Entry("bubasuma\\simplechat\\models\\Conversation", ClassName("bubasuma\\simplechat\\models\\Conversation")),
      Entry("bubasuma\\simplechat\\models\\User", ClassName("bubasuma\\simplechat\\models\\User")),
      Entry("bubasuma\\simplechat\\models\\UserProfile", ClassName("bubasuma\\simplechat\\models\\UserProfile"))])
  {
    var none: Assoc<Definition> := [];
    assert FirstKeyNotIn(none, Names).None?;
    var m := ClassMapOf([]).value;
    assert |m| == 4;
    assert forall k, f: Definition :: GetOr(none, k, f) == f;
    assert m[0] == Entry("bubasuma\\simplechat\\models\\Message", ClassName("bubasuma\\simplechat\\models\\Message"));
    assert m[1] == Entry("bubasuma\\simplechat\\models\\Conversation", ClassName("bubasuma\\simplechat\\models\\Conversation"));
    assert m[2] == Entry("bubasuma\\simplechat\\models\\User", ClassName("bubasuma\\simplechat\\models\\User"));
    assert m[3] == Entry("bubasuma\\simplechat\\models\\UserProfile", ClassName("bubasuma\\simplechat\\models\\UserProfile"));
    assert m == [m[0], m[1], m[2], m[3]];
  }

  /**
   * On success the class map has exactly the four qualified keys, in the
   * order of the defaults, whatever the order of the user's map.
   */
  lemma ClassMapKeys(userClassMap: Assoc<Definition>)
    requires ClassMapOf(userClassMap).Ok?
    ensures Keys(ClassMapOf(userClassMap).value) == [
      Qualified(ModelsNamespace, "Message"), Qualified(ModelsNamespace, "Conversation"),
      Qualified(ModelsNamespace, "User"), Qualified(ModelsNamespace, "UserProfile")]
  {
    assert Keys(ClassMapOf(userClassMap).value)[0] == Qualified(ModelsNamespace, "Message");
  }

  /**
   * A user definition for a configurable class replaces its default; a
   * class the user does not configure keeps its default definition.
   */
  lemma ClassMapLookup(userClassMap: Assoc<Definition>, i: nat)
    requires ClassMapOf(userClassMap).Ok? && i < |Names|
    ensures var m := ClassMapOf(userClassMap).value;
      && (forall d :: Get(userClassMap, Names[i]) == Some(d) ==>
            Get(m, Qualified(ModelsNamespace, Names[i])) == Some(d))
      && (Names[i] !in Keys(userClassMap) ==>
            Get(m, Qualified(ModelsNamespace, Names[i])) == Some(Defaults[i].value))
  {
    var m := ClassMapOf(userClassMap).value;
    DefaultsWellFormed();
    assert DistinctKeys(m) by {
      forall j, k | 0 <= j < k < |m| ensures m[j].key != m[k].key {
        if m[j].key == m[k].key {
          QualifiedInjective(ModelsNamespace, Names[j], Names[k]);
        }
      }
    }
    GetAt(m, i);
  }

  /** Each default definition names the class at its qualified name. */
  lemma DefaultsAreOwnClasses()
    ensures forall i :: 0 <= i < |Defaults| ==>
      Defaults[i].value == ClassName(Qualified(ModelsNamespace, Defaults[i].key))
  {
    assert Defaults[0].value == ClassName(Qualified(ModelsNamespace, "Message"));
    assert Defaults[1].value == ClassName(Qualified(ModelsNamespace, "Conversation"));
    assert Defaults[2].value == ClassName(Qualified(ModelsNamespace, "User"));
    assert Defaults[3].value == ClassName(Qualified(ModelsNamespace, "UserProfile"));
  }

  /**
   * The model class initContainer records for a class-map entry: a class the
   * user does not configure is its own model class, and a class the user
   * configures by name has that name as its model class.
   */
  lemma ClassMapModelClasses(userClassMap: Assoc<Definition>, i: nat)
    requires ClassMapOf(userClassMap).Ok? && i < |Names|
    ensures var m := ClassMapOf(userClassMap).value;
      && (Names[i] !in Keys(userClassMap) ==> ModelClass(m[i].value) == Some(m[i].key))
      && (forall c :: Get(userClassMap, Names[i]) == Some(ClassName(c)) ==> ModelClass(m[i].value) == Some(c))
  {
    DefaultsWellFormed();
    DefaultsAreOwnClasses();
    var m := ClassMapOf(userClassMap).value;
    assert m[i].key == Qualified(ModelsNamespace, Defaults[i].key);
  }

  /** Every key of a class map gives back, as its short name, the configurable class it stands for. */
  lemma ClassMapShortNames(userClassMap: Assoc<Definition>)
    requires ClassMapOf(userClassMap).Ok?
    ensures var m := ClassMapOf(userClassMap).value;
      |m| == |Names| && forall i :: 0 <= i < |m| ==> ShortName(m[i].key) == Names[i]
  {
    var m := ClassMapOf(userClassMap).value;
    NamesUnqualified();
    forall i | 0 <= i < |m| ensures ShortName(m[i].key) == Names[i] {
      ShortNameOfQualified(ModelsNamespace, Names[i]);
    }
  }

  /** Appending one entry to a class map appends its query class, if it has one. */
  lemma QueryFactoriesSnoc(classMap: Assoc<Definition>, e: Entry<Definition>)
    ensures QueryFactories(classMap + [e]) == QueryFactories(classMap) +
      if ShortName(e.key) in QueryNames then [QueryFactory(QueryClass(ShortName(e.key)), ModelClass(e.value))] else []
  {
    assert (classMap + [e])[..|classMap|] == classMap;
  }

  /** Of the configurable classes, exactly Message and Conversation have a query class. */
  lemma NamesWithQueries()
    ensures Names[0] == QueryNames[0] && Names[1] == QueryNames[1]
    ensures Names[2] !in QueryNames && Names[3] !in QueryNames
  {
  }

  /** Four entries of which the first two have a query class: their two query classes, in order. */
  lemma {:induction false} QueryFactoriesOfFour(m: Assoc<Definition>)
    requires |m| == 4
    requires ShortName(m[0].key) in QueryNames && ShortName(m[1].key) in QueryNames
    requires ShortName(m[2].key) !in QueryNames && ShortName(m[3].key) !in QueryNames
    ensures QueryFactories(m) == [
      QueryFactory(QueryClass(ShortName(m[0].key)), ModelClass(m[0].value)),
      QueryFactory(QueryClass(ShortName(m[1].key)), ModelClass(m[1].value))]
  {
    assert m[..0] == [] && m[..4] == m;
    QueryFactoriesPrefix(m, 0);
    QueryFactoriesPrefix(m, 1);
    QueryFactoriesPrefix(m, 2);
    QueryFactoriesPrefix(m, 3);
  }

  /** The query classes registered for four entries whose short names are the configurable classes. */
  lemma QueryFactoriesOfNames(m: Assoc<Definition>)
    requires |m| == |Names| && forall i :: 0 <= i < |m| ==> ShortName(m[i].key) == Names[i]
    ensures QueryFactories(m) == [
      QueryFactory(QueryClass(QueryNames[0]), ModelClass(m[0].value)),
      QueryFactory(QueryClass(QueryNames[1]), ModelClass(m[1].value))]
  {
    NamesWithQueries();
    assert ShortName(m[0].key) == QueryNames[0] && ShortName(m[1].key) == QueryNames[1];
    QueryFactoriesOfFour(m);
  }

  /**
   * Of a class map buildClassMap returns, only the Message and Conversation
   * entries get a query class, each built by that entry's model class.
   */
  lemma ClassMapQueryFactories(userClassMap: Assoc<Definition>)
    requires ClassMapOf(userClassMap).Ok?
    ensures var m := ClassMapOf(userClassMap).value;
      QueryFactories(m) == [
        QueryFactory(QueryClass(QueryNames[0]), ModelClass(m[0].value)),
        QueryFactory(QueryClass(QueryNames[1]), ModelClass(m[1].value))]
  {
    ClassMapShortNames(userClassMap);
    QueryFactoriesOfNames(ClassMapOf(userClassMap).value);
  }
}
