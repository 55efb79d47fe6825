/**
  The decision logic of `DoctrineHelper`, run over mapping metadata given as
  data instead of being asked of the ORM: entity variants and their labels,
  the depth of a class in its inheritance chain, the most derived variant,
  discriminator lookup with its fallback to the root entity, and the guards
  that decide whether and how an entity is remapped to another variant.
 */
module DoctrineHelper {
  import opened Wrappers
  import opened OrderedMaps
  import opened VariantLabels

  /** What the ORM's class metadata gives for one mapped class. The
      discriminator map is ordered (discriminator value, class name) pairs;
      a class without one has the empty map. */
  datatype ClassMeta = ClassMeta(
    table: string,
    rootEntityName: string,
    discriminatorColumn: string,
    discriminatorMap: Assoc<string, string>)

  /** What reflection gives for one loadable class: its parent class, the
      `name` entry of its doc comment, and a rank that parents undercut. */
  datatype ClassInfo = ClassInfo(parent: Option<string>, docName: Option<string>, rank: nat)

  /** All the metadata the helper consults. A class missing from `meta` is
      not a mapped entity; one missing from `classes` cannot be reflected. */
  datatype Schema = Schema(meta: map<string, ClassMeta>, classes: map<string, ClassInfo>)

  datatype HelperError =
    | UnknownEntity(name: string)                              // getClassMetadata throws
    | RemapDifferentTables(fromTable: string, toTable: string)  // DatabaseException::remapDifferentTypes

  /** PHP class hierarchies are acyclic: every parent is reflectable and ranks lower. */
  predicate Valid(s: Schema) {
    forall c :: c in s.classes && s.classes[c].parent.Some? ==>
      s.classes[c].parent.value in s.classes && s.classes[s.classes[c].parent.value].rank < s.classes[c].rank
  }

  // ---------------------------------------------------------------------------
  // getEntityVariants

  /** `Utils::reflectionClassDocComment($variant, 'name')`, null when the class cannot be reflected. */
  function DocName(s: Schema, c: string): (r: Option<string>)
    ensures c !in s.classes ==> r.None?
    ensures c in s.classes ==> r == s.classes[c].docName
  {
    if c in s.classes then s.classes[c].docName else None
  }

  /** The display label of one variant: its doc-comment name when it has
      one; otherwise a fallback from which the class's short name can be
      read back. */
  function Label(s: Schema, c: string): (r: string)
    ensures DocName(s, c).Some? ==> r == DocName(s, c).value
    ensures DocName(s, c).None? ==> r == Decamel(ShortName(c))
    ensures DocName(s, c).None? && ' ' !in c ==> Recamel(r) == ShortName(c)
  {
    match DocName(s, c)
    case Some(name) => name
    case None =>
      var short := ShortName(c);
      assert ' ' !in c ==> Recamel(Decamel(short)) == short by {
        if ' ' !in c {
          if short != c {
            assert short == c[|c| - |short|..];
          }
          DecamelRoundTrip(short);
        }
      }
      Decamel(short)
  }

  /** Without a doc-comment name, a namespaced class is labelled by its own
      name, split at each lower-then-upper boundary. */
  lemma LabelFallback(s: Schema, ns: string, name: string)
    requires DocName(s, ns + ['\\'] + name).None?
    requires name != [] && '\\' !in name
    ensures Label(s, ns + ['\\'] + name) == Decamel(name)
  {
    ShortNameOfQualified(ns, name);
  }

  /** `App\CustomProduct` without a doc-comment name is labelled `Custom product`. */
  lemma LabelOfCustomProduct(s: Schema, c: string)
    requires c == "App\\CustomProduct" && DocName(s, c).None?
    ensures Label(s, c) == "Custom product"
  {
    var ns, w, rest := "App", "Custom", "roduct";
    CustomProductText(c, ns, w, rest);
    LabelFallback(s, ns, w + ['P'] + rest);
    DecamelTwoWords(w, 'P', rest);
  }

  /** How `App\CustomProduct` and `Custom product` split into their parts. */
  lemma CustomProductText(c: string, ns: string, w: string, rest: string)
    requires c == "App\\CustomProduct" && ns == "App" && w == "Custom" && rest == "roduct"
    ensures c == ns + ['\\'] + (w + ['P'] + rest)
    ensures w != [] && IsLowerOrDigit(w[|w| - 1])
    ensures forall i :: 1 <= i < |w| ==> !IsUpper(w[i])
    ensures forall i :: 0 <= i < |rest| ==> !IsUpper(rest[i])
    ensures w + [' ', ToLower('P')] + rest == "Custom product"
  {
  }

  /** `$return[$variant] = <label>` for every class of the discriminator map, in map order. */
  function LabelAll(s: Schema, dm: Assoc<string, string>): Assoc<string, string>
  {
    if dm == [] then []
    else
      var c := dm[|dm| - 1].1;
      Put(LabelAll(s, dm[..|dm| - 1]), c, Label(s, c))
  }

  /** `unset($return[$excludeItem])` for every excluded class, in order. */
  function RemoveAll(a: Assoc<string, string>, exclude: seq<string>): Assoc<string, string>
  {
    if exclude == [] then a else Remove(RemoveAll(a, exclude[..|exclude| - 1]), exclude[|exclude| - 1])
  }

  /** What `getEntityVariants` returns; a null `$exclude` is the empty list. */
  function VariantsSpec(s: Schema, entity: string, exclude: seq<string>): Result<Assoc<string, string>, HelperError>
  {
    if entity !in s.meta then Failure(UnknownEntity(entity))
    else Success(RemoveAll(LabelAll(s, s.meta[entity].discriminatorMap), exclude))
  }

  method EntityVariants(s: Schema, entity: string, exclude: seq<string>) returns (r: Result<Assoc<string, string>, HelperError>)
    ensures r == VariantsSpec(s, entity, exclude)
  {
    if entity !in s.meta {
      return Failure(UnknownEntity(entity));
    }
    var dm := s.meta[entity].discriminatorMap;
    var ret: Assoc<string, string> := [];
    if |dm| > 0 {
      ret := LabelVariants(s, dm);
    }
    ret := ExcludeVariants(ret, exclude);
    return Success(ret);
  }

  /** The `unset` loop of `getEntityVariants`. */
  method ExcludeVariants(a: Assoc<string, string>, exclude: seq<string>) returns (ret: Assoc<string, string>)
    ensures ret == RemoveAll(a, exclude)
  {
    ret := a;
    for i := 0 to |exclude|
      invariant ret == RemoveAll(a, exclude[..i])
    {
      assert exclude[..i + 1][..i] == exclude[..i];
      ret := Remove(ret, exclude[i]);
    }
    assert exclude[..|exclude|] == exclude;
  }

  /** The labelling loop of `getEntityVariants`. */
  method LabelVariants(s: Schema, dm: Assoc<string, string>) returns (ret: Assoc<string, string>)
    ensures ret == LabelAll(s, dm)
  {
    ret := [];
    for i := 0 to |dm|
      invariant ret == LabelAll(s, dm[..i])
    {
      assert dm[..i + 1][..i] == dm[..i];
      var variant := dm[i].1;
      var name := DocName(s, variant);
      var caption: string;
      if name.None? {
        caption := Decamel(ShortName(variant));
      } else {
        caption := name.value;
      }
      assert caption == Label(s, dm[..i + 1][i].1);
      ret := Put(ret, variant, caption);
    }
    assert dm[..|dm|] == dm;
  }

  /** The classes of a discriminator map followed by one more entry's class. */
  lemma {:induction false} ValuesSnoc(dm: Assoc<string, string>)
    requires dm != []
    ensures Values(dm) == Values(dm[..|dm| - 1]) + [dm[|dm| - 1].1]
  {
    if |dm| > 1 {
      ValuesSnoc(dm[1..]);
      assert dm[1..][..|dm| - 2] == dm[..|dm| - 1][1..];
    }
  }

  /** Every class of the discriminator map appears once, in first-occurrence order. */
  lemma {:induction false} LabelAllKeys(s: Schema, dm: Assoc<string, string>)
    ensures Keys(LabelAll(s, dm)) == FirstOccurrences(Values(dm))
  {
    if dm != [] {
      var prefix := dm[..|dm| - 1];
      var last := dm[|dm| - 1].1;
      LabelAllKeys(s, prefix);
      ValuesSnoc(dm);
      PutKeepsFirstOccurrences(LabelAll(s, prefix), Values(prefix), last, Label(s, last));
    }
  }

  /** Every class of the discriminator map is labelled, and nothing else is. */
  lemma {:induction false} LabelAllGet(s: Schema, dm: Assoc<string, string>, c: string)
    ensures Get(LabelAll(s, dm), c) == if c in Values(dm) then Some(Label(s, c)) else None
  {
    if dm != [] {
      var prefix := dm[..|dm| - 1];
      LabelAllGet(s, prefix, c);
      ValuesSnoc(dm);
    }
  }

  /** Removing the excluded classes removes exactly those and keeps the others' values. */
  lemma {:induction false} RemoveAllContents(a: Assoc<string, string>, exclude: seq<string>, c: string)
    requires Distinct(Keys(a))
    ensures Distinct(Keys(RemoveAll(a, exclude)))
    ensures c in Keys(RemoveAll(a, exclude)) <==> c in Keys(a) && c !in exclude
    ensures Get(RemoveAll(a, exclude), c) == if c in exclude then None else Get(a, c)
  {
    if exclude != [] {
      var prefix := exclude[..|exclude| - 1];
      RemoveAllContents(a, prefix, c);
      RemoveKeepsDistinct(RemoveAll(a, prefix), exclude[|exclude| - 1]);
      assert exclude == prefix + [exclude[|exclude| - 1]];
    }
  }

  /** Removing the excluded classes keeps the other keys in their order. */
  lemma {:induction false} RemoveAllKeys(a: Assoc<string, string>, exclude: seq<string>)
    ensures Keys(RemoveAll(a, exclude)) == FilterOut(Keys(a), exclude)
  {
    if exclude == [] {
      FilterOutNothing(Keys(a));
    } else {
      var prefix := exclude[..|exclude| - 1];
      RemoveAllKeys(a, prefix);
      FilterOutSnoc(Keys(a), prefix, exclude[|exclude| - 1]);
      assert exclude == prefix + [exclude[|exclude| - 1]];
    }
  }

  /** The variants are exactly the classes of the discriminator map minus the
      excluded ones, each once and with its label; none without a map. */
  lemma Variants(s: Schema, entity: string, exclude: seq<string>, c: string)
    requires entity in s.meta
    ensures var r := VariantsSpec(s, entity, exclude);
      var dm := s.meta[entity].discriminatorMap;
      && r.Success?
      && Keys(r.value) == FilterOut(FirstOccurrences(Values(dm)), exclude)
      && Distinct(Keys(r.value))
      && (c in Keys(r.value) <==> c in Values(dm) && c !in exclude)
      && Get(r.value, c) == (if c in Values(dm) && c !in exclude then Some(Label(s, c)) else None)
      && (dm == [] ==> r.value == [])
  {
    var dm := s.meta[entity].discriminatorMap;
    LabelAllKeys(s, dm);
    LabelAllGet(s, dm, c);
    RemoveAllContents(LabelAll(s, dm), exclude, c);
    RemoveAllKeys(LabelAll(s, dm), exclude);
    if dm == [] {
      EmptyRemoveAll(exclude);
    }
  }

  lemma {:induction false} EmptyRemoveAll(exclude: seq<string>)
    ensures RemoveAll([], exclude) == []
  {
    if exclude != [] {
      EmptyRemoveAll(exclude[..|exclude| - 1]);
    }
  }

  // ---------------------------------------------------------------------------
  // getParentClassLength

  /** `getParentClassLength($reflection, $bind)`. */
  function ParentClassLength(s: Schema, c: string, bind: int): (n: int)
    requires Valid(s) && c in s.classes
    ensures bind >= 0 ==> n >= bind
    decreases s.classes[c].rank
  {
    match s.classes[c].parent
    case None => bind
    case Some(p) => ParentClassLength(s, p, bind) + bind
  }

  /** The chain of classes from `c` up to the class without a parent. */
  function Ancestry(s: Schema, c: string): (chain: seq<string>)
    requires Valid(s) && c in s.classes
    ensures chain != [] && chain[0] == c
    ensures forall i :: 0 <= i < |chain| ==> chain[i] in s.classes
    ensures forall i :: 0 <= i < |chain| - 1 ==> s.classes[chain[i]].parent == Some(chain[i + 1])
    ensures s.classes[chain[|chain| - 1]].parent.None?
    decreases s.classes[c].rank
  {
    match s.classes[c].parent
    case None => [c]
    case Some(p) => [c] + Ancestry(s, p)
  }

  /** The length counts the classes from `c` to its root, inclusive, `bind` each. */
  lemma {:induction false} ParentClassLengthCountsAncestry(s: Schema, c: string, bind: int)
    requires Valid(s) && c in s.classes
    ensures ParentClassLength(s, c, bind) == bind * |Ancestry(s, c)|
    decreases s.classes[c].rank
  {
    match s.classes[c].parent
    case None =>
    case Some(p) =>
      ParentClassLengthCountsAncestry(s, p, bind);
      assert |Ancestry(s, c)| == 1 + |Ancestry(s, p)|;
  }

  /** The depth used for ranking: the chain length, or 0 when reflection fails. */
  function Depth(s: Schema, c: string): (d: int)
    requires Valid(s)
    ensures d >= 0
  {
    if c in s.classes then ParentClassLength(s, c, 1) else 0
  }

  /** A reflectable class is as deep as its chain is long; any other is 0 deep. */
  lemma DepthIsAncestryLength(s: Schema, c: string)
    requires Valid(s)
    ensures c in s.classes ==> Depth(s, c) == |Ancestry(s, c)| >= 1
    ensures c !in s.classes ==> Depth(s, c) == 0
  {
    if c in s.classes {
      ParentClassLengthCountsAncestry(s, c, 1);
    }
  }

  /** Each step up the chain is one shallower: a subclass always ranks
      strictly deeper than any of its ancestors. */
  lemma {:induction false} AncestorsAreShallower(s: Schema, c: string, k: nat)
    requires Valid(s) && c in s.classes && k < |Ancestry(s, c)|
    ensures Depth(s, Ancestry(s, c)[k]) == Depth(s, c) - k
    decreases s.classes[c].rank
  {
    if k > 0 {
      var p := s.classes[c].parent.value;
      assert Ancestry(s, c)[k] == Ancestry(s, p)[k - 1];
      AncestorsAreShallower(s, p, k - 1);
    }
    DepthIsAncestryLength(s, c);
    DepthIsAncestryLength(s, Ancestry(s, c)[k]);
  }

  // ---------------------------------------------------------------------------
  // getBestOfType

  /** `($topLength, $topType)` after the loop has visited the variants `ks`. */
  function TopOf(s: Schema, ks: seq<string>, entity: string): (top: (int, string))
    requires Valid(s)
    ensures top.1 == entity || top.1 in ks
  {
    if ks == [] then (0, entity)
    else
      var top := TopOf(s, ks[..|ks| - 1], entity);
      var d := Depth(s, ks[|ks| - 1]);
      if d > top.0 then (d, ks[|ks| - 1]) else top
  }

  /** `ks[j]` is strictly deeper than every variant before it and at least as
      deep as every variant after it. */
  predicate FirstDeepest(s: Schema, ks: seq<string>, j: int)
    requires Valid(s)
  {
    && 0 <= j < |ks|
    && Depth(s, ks[j]) > 0
    && (forall i :: 0 <= i < |ks| ==> Depth(s, ks[i]) <= Depth(s, ks[j]))
    && (forall i :: 0 <= i < j ==> Depth(s, ks[i]) < Depth(s, ks[j]))
  }

  /** When no variant is deeper than 0 the input class stands. */
  lemma {:induction false} TopOfWithoutDepth(s: Schema, ks: seq<string>, entity: string)
    requires Valid(s)
    requires forall i :: 0 <= i < |ks| ==> Depth(s, ks[i]) == 0
    ensures TopOf(s, ks, entity) == (0, entity)
  {
    if ks != [] {
      TopOfWithoutDepth(s, ks[..|ks| - 1], entity);
    }
  }

  /** Otherwise the loop is an arg-max where the first of equally deep variants wins. */
  lemma {:induction false} TopOfIsFirstDeepest(s: Schema, ks: seq<string>, entity: string, w: int) returns (j: int)
    requires Valid(s)
    requires 0 <= w < |ks| && Depth(s, ks[w]) > 0
    ensures FirstDeepest(s, ks, j) && TopOf(s, ks, entity) == (Depth(s, ks[j]), ks[j])
  {
    var n := |ks| - 1;
    var prefix := ks[..n];
    var d := Depth(s, ks[n]);
    assert forall i :: 0 <= i < n ==> prefix[i] == ks[i];
    var w' := FirstPositive(s, prefix);
    if w' < 0 {
      TopOfWithoutDepth(s, prefix, entity);
      j := n;
    } else {
      var j' := TopOfIsFirstDeepest(s, prefix, entity, w');
      j := if d > Depth(s, prefix[j']) then n else j';
    }
  }

  /** The first variant deeper than 0, or -1 when there is none. */
  lemma FirstPositive(s: Schema, ks: seq<string>) returns (w: int)
    requires Valid(s)
    ensures w < 0 ==> forall i :: 0 <= i < |ks| ==> Depth(s, ks[i]) == 0
    ensures w >= 0 ==> w < |ks| && Depth(s, ks[w]) > 0
  {
    w := -1;
    var i := 0;
    while i < |ks|
      invariant 0 <= i <= |ks|
      invariant forall k :: 0 <= k < i ==> Depth(s, ks[k]) == 0
    {
      if Depth(s, ks[i]) > 0 {
        return i;
      }
      i := i + 1;
    }
  }

  /** What `getBestOfType` returns. */
  function BestOfTypeSpec(s: Schema, entity: string): Result<string, HelperError>
    requires Valid(s)
  {
    var variants :- VariantsSpec(s, entity, []);
    if |variants| == 0 || |variants| == 1 then Success(entity)
    else Success(TopOf(s, Keys(variants), entity).1)
  }

  method BestOfType(s: Schema, entity: string) returns (r: Result<string, HelperError>)
    requires Valid(s)
    ensures r == BestOfTypeSpec(s, entity)
  {
    var variants := EntityVariants(s, entity, []);
    if variants.Failure? {
      return Failure(variants.error);
    }
    var v := variants.value;
    if |v| == 0 || |v| == 1 {
      return Success(entity);
    }
    var topType := DeepestVariant(s, Keys(v), entity);
    return Success(topType);
  }

  /** The loop of `getBestOfType` over the variant classes `ks`. */
  method DeepestVariant(s: Schema, ks: seq<string>, entity: string) returns (topType: string)
    requires Valid(s)
    ensures topType == TopOf(s, ks, entity).1
  {
    var topLength := 0;
    topType := entity;
    for i := 0 to |ks|
      invariant (topLength, topType) == TopOf(s, ks[..i], entity)
    {
      assert ks[..i + 1][..i] == ks[..i];
      var length := if ks[i] in s.classes then ParentClassLength(s, ks[i], 1) else 0;
      assert length == Depth(s, ks[i]);
      if length > topLength {
        topLength := length;
        topType := ks[i];
      }
    }
    assert ks[..|ks|] == ks;
  }

  /** The input class when it has fewer than two variants or none of them can
      be reflected; otherwise the first variant, in map order, of greatest depth. */
  lemma BestOfTypeChoice(s: Schema, entity: string)
    requires Valid(s) && entity in s.meta
    ensures var ks := Keys(VariantsSpec(s, entity, []).value);
      var r := BestOfTypeSpec(s, entity);
      && r.Success?
      && (|ks| <= 1 ==> r.value == entity)
      && (|ks| >= 2 && (forall i :: 0 <= i < |ks| ==> Depth(s, ks[i]) == 0) ==> r.value == entity)
      && (|ks| >= 2 && (exists i :: 0 <= i < |ks| && Depth(s, ks[i]) > 0) ==>
            exists j :: FirstDeepest(s, ks, j) && r.value == ks[j])
  {
    var ks := Keys(VariantsSpec(s, entity, []).value);
    var w := FirstPositive(s, ks);
    if w < 0 {
      TopOfWithoutDepth(s, ks, entity);
    } else {
      var j := TopOfIsFirstDeepest(s, ks, entity, w);
    }
  }

  // ---------------------------------------------------------------------------
  // getDiscriminatorByEntity

  /** The position of the first entry whose class is `c`, if any. */
  function FirstEntryOf(dm: Assoc<string, string>, c: string): (r: Option<nat>)
    ensures r.Some? ==> r.value < |dm| && dm[r.value].1 == c && forall j :: 0 <= j < r.value ==> dm[j].1 != c
    ensures r.None? ==> forall j :: 0 <= j < |dm| ==> dm[j].1 != c
  {
    if dm == [] then None
    else if dm[0].1 == c then Some(0)
    else match FirstEntryOf(dm[1..], c)
      case None => None
      case Some(i) => Some(i + 1)
  }

  /** What `getDiscriminatorByEntity` returns: the first discriminator of the
      class in its own map; else the first discriminator of the ROOT class in
      the root's map; else the empty string. */
  function DiscriminatorSpec(s: Schema, entity: string): (r: Result<string, HelperError>)
    ensures entity !in s.meta ==> r == Failure(UnknownEntity(entity))
    ensures entity in s.meta ==>
      var own := s.meta[entity].discriminatorMap;
      var root := s.meta[entity].rootEntityName;
      && (forall i :: 0 <= i < |own| && own[i].1 == entity && (forall j :: 0 <= j < i ==> own[j].1 != entity) ==>
            r == Success(own[i].0))
      && ((forall i :: 0 <= i < |own| ==> own[i].1 != entity) && root !in s.meta ==>
            r == Failure(UnknownEntity(root)))
      && ((forall i :: 0 <= i < |own| ==> own[i].1 != entity) && root in s.meta ==>
            var rm := s.meta[root].discriminatorMap;
            && (forall i :: 0 <= i < |rm| && rm[i].1 == root && (forall j :: 0 <= j < i ==> rm[j].1 != root) ==>
                  r == Success(rm[i].0))
            && ((forall i :: 0 <= i < |rm| ==> rm[i].1 != root) ==> r == Success("")))
  {
    if entity !in s.meta then Failure(UnknownEntity(entity))
    else
      var own := s.meta[entity].discriminatorMap;
      match FirstEntryOf(own, entity)
      case Some(i) => Success(own[i].0)
      case None =>
        var root := s.meta[entity].rootEntityName;
        if root !in s.meta then Failure(UnknownEntity(root))
        else
          var rm := s.meta[root].discriminatorMap;
          match FirstEntryOf(rm, root)
          case Some(i) => Success(rm[i].0)
          case None => Success("")
  }

  method DiscriminatorByEntity(s: Schema, entity: string) returns (r: Result<string, HelperError>)
    ensures r == DiscriminatorSpec(s, entity)
  {
    if entity !in s.meta {
      return Failure(UnknownEntity(entity));
    }
    var dm := s.meta[entity].discriminatorMap;
    var i := 0;
    while i < |dm|
      invariant 0 <= i <= |dm|
      invariant forall j :: 0 <= j < i ==> dm[j].1 != entity
    {
      if dm[i].1 == entity {
        return Success(dm[i].0);
      }
      i := i + 1;
    }
    var root := s.meta[entity].rootEntityName;
    if root !in s.meta {
      return Failure(UnknownEntity(root));
    }
    dm := s.meta[root].discriminatorMap;
    i := 0;
    while i < |dm|
      invariant 0 <= i <= |dm|
      invariant forall j :: 0 <= j < i ==> dm[j].1 != root
    {
      if dm[i].1 == root {
        return Success(dm[i].0);
      }
      i := i + 1;
    }
    return Success("");
  }

  // ---------------------------------------------------------------------------
  // remapEntity / remapEntityToBestType

  /** A loaded entity: its runtime class and its id. */
  datatype EntityRef = EntityRef(cls: string, id: string)

  /** What a remap does: nothing (the entity is returned as it is), or the
      update of the discriminator column of the entity's row, after which the
      row is reloaded by id through the target class's repository. */
  datatype RemapOutcome =
    | Unchanged(entity: EntityRef)
    | Remapped(table: string, column: string, discriminator: string, id: string, reloadAs: string)

  /** The guards of `remapEntity($from, $to)` and the update they let through. */
  function Remap(s: Schema, from: EntityRef, to: string): (r: Result<RemapOutcome, HelperError>)
    ensures r == Success(Unchanged(from)) <==>
      DiscriminatorSpec(s, from.cls).Success? && DiscriminatorSpec(s, from.cls) == DiscriminatorSpec(s, to)
    ensures r.Success? && r.value.Remapped? ==>
      && from.cls in s.meta && to in s.meta
      && r.value.table == s.meta[from.cls].table == s.meta[to].table
      && r.value.column == s.meta[from.cls].discriminatorColumn
      && DiscriminatorSpec(s, to) == Success(r.value.discriminator)
      && DiscriminatorSpec(s, from.cls) != DiscriminatorSpec(s, to)
      && r.value.id == from.id && r.value.reloadAs == to
    ensures (&& DiscriminatorSpec(s, from.cls).Success? && DiscriminatorSpec(s, to).Success?
             && DiscriminatorSpec(s, from.cls) != DiscriminatorSpec(s, to)
             && s.meta[from.cls].table != s.meta[to].table) ==>
      r == Failure(RemapDifferentTables(s.meta[from.cls].table, s.meta[to].table))
    ensures (&& DiscriminatorSpec(s, from.cls).Success? && DiscriminatorSpec(s, to).Success?
             && DiscriminatorSpec(s, from.cls) != DiscriminatorSpec(s, to)
             && s.meta[from.cls].table == s.meta[to].table) ==>
      r.Success? && r.value.Remapped?
    ensures DiscriminatorSpec(s, from.cls).Failure? ==> r == Failure(DiscriminatorSpec(s, from.cls).error)
    ensures DiscriminatorSpec(s, from.cls).Success? && DiscriminatorSpec(s, to).Failure? ==>
      r == Failure(DiscriminatorSpec(s, to).error)
    ensures r.Success? && r.value.Unchanged? ==> r.value.entity == from
  {
    var fromDiscriminator :- DiscriminatorSpec(s, from.cls);
    var toDiscriminator :- DiscriminatorSpec(s, to);
    if fromDiscriminator == toDiscriminator then Success(Unchanged(from))
    else
      var fromTable := s.meta[from.cls].table;
      var toTable := s.meta[to].table;
      if fromTable != toTable then Failure(RemapDifferentTables(fromTable, toTable))
      else Success(Remapped(fromTable, s.meta[from.cls].discriminatorColumn, toDiscriminator, from.id, to))
  }

  /** Remapping an entity to its own class finds equal discriminators and
      does nothing; so a second remap to the same target is a no-op. */
  lemma RemapToOwnClass(s: Schema, e: EntityRef)
    requires DiscriminatorSpec(s, e.cls).Success?
    ensures Remap(s, e, e.cls) == Success(Unchanged(e))
  {
  }

  /** `remapEntityToBestType($from)`. */
  function RemapToBestType(s: Schema, from: EntityRef): (r: Result<RemapOutcome, HelperError>)
    requires Valid(s)
    ensures BestOfTypeSpec(s, from.cls) == Success(from.cls) ==> r == Success(Unchanged(from))
    ensures BestOfTypeSpec(s, from.cls).Failure? ==> r == Failure(BestOfTypeSpec(s, from.cls).error)
    ensures BestOfTypeSpec(s, from.cls).Success? && BestOfTypeSpec(s, from.cls).value != from.cls ==>
      r == Remap(s, from, BestOfTypeSpec(s, from.cls).value)
    ensures r.Success? && r.value.Remapped? ==>
      && from.cls in s.meta
      && r.value.reloadAs != from.cls
      && r.value.reloadAs in Values(s.meta[from.cls].discriminatorMap)
  {
    var best :- BestOfTypeSpec(s, from.cls);
    if from.cls == best then Success(Unchanged(from))
    else
      BestIsVariant(s, from.cls);
      Remap(s, from, best)
  }

  /** A best type other than the input is one of its variants. */
  lemma BestIsVariant(s: Schema, entity: string)
    requires Valid(s)
    ensures BestOfTypeSpec(s, entity).Success? && BestOfTypeSpec(s, entity).value != entity ==>
      entity in s.meta && BestOfTypeSpec(s, entity).value in Values(s.meta[entity].discriminatorMap)
  {
    if entity in s.meta {
      var v := VariantsSpec(s, entity, []).value;
      var best := BestOfTypeSpec(s, entity).value;
      if best != entity {
        Variants(s, entity, [], best);
      }
    }
  }
}
