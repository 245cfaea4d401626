/**
 * Loading a nested dictionary into a flat configuration. The source walks the nesting with an
 * explicit stack. Its writes are given in order for any keys; for non-empty keys without dots they
 * are exactly one entry per leaf, at the dotted path of that leaf, and one namespace entry per
 * inner dictionary when asked to.
 *
 * A Python dictionary is the list of its items in insertion order. Keys need not be strings.
 */
module ConfigDict {
  import opened Common
  import opened Strings

  datatype Key = Name(text: string) | NotAString(id: int)

  datatype Value<V> = Leaf(v: V) | Dict(items: Items<V>)

  datatype Items<V> = Nil | Item(key: Key, value: Value<V>, rest: Items<V>)

  /** What the configuration stores: a value, or a namespace object for a prefix. */
  datatype Stored<V> = Plain(v: V) | Namespace(prefix: string)

  function FullKey(prefix: string, key: string): string {
    if prefix != "" then prefix + "." + key else key
  }

  // ----- recursive flattening

  predicate AllNames<V>(items: Items<V>) {
    match items
    case Nil => true
    case Item(key, value, rest) => key.Name? && (value.Dict? ==> AllNames(value.items)) && AllNames(rest)
  }

  function KeyText(key: Key): string {
    if key.Name? then key.text else ""
  }

  ghost function EntriesOf<V>(full: string, value: Value<V>, make: bool): set<(string, Stored<V>)>
    decreases value, 1
  {
    match value
    case Leaf(v) => {(full, Plain(v))}
    case Dict(items) => Entries(full, items, make) + (if make then {(full, Namespace(full))} else {})
  }

  /** The entries written for the items of a dictionary with the given prefix. */
  ghost function Entries<V>(prefix: string, items: Items<V>, make: bool): set<(string, Stored<V>)>
    decreases items, 0
  {
    match items
    case Nil => {}
    case Item(key, value, rest) => EntriesOf(FullKey(prefix, KeyText(key)), value, make) + Entries(prefix, rest, make)
  }

  // ----- the writes in order

  /** One write, or the error for a key that is not a string. */
  datatype Step<V> = Put(key: string, value: Stored<V>) | BadKey

  /** The store after the writes up to the first error. */
  function Apply<V>(store: map<string, Stored<V>>, steps: seq<Step<V>>): map<string, Stored<V>>
    decreases |steps|
  {
    if steps == [] || steps[0].BadKey? then store else Apply(store[steps[0].key := steps[0].value], steps[1..])
  }

  /** What is written for one value itself. */
  function OwnStep<V>(full: string, value: Value<V>, make: bool): seq<Step<V>> {
    match value
    case Leaf(v) => [Put(full, Plain(v))]
    case Dict(_) => if make then [Put(full, Namespace(full))] else []
  }

  function Own<V>(prefix: string, items: Items<V>, make: bool): seq<Step<V>> {
    match items
    case Nil => []
    case Item(key, value, rest) =>
      if key.Name? then OwnStep(FullKey(prefix, key.text), value, make) + Own(prefix, rest, make) else [BadKey]
  }

  /** The writes for the dictionaries among the values, the last of them first. */
  function Nested<V>(prefix: string, items: Items<V>, make: bool): seq<Step<V>>
    decreases items, 0
  {
    match items
    case Nil => []
    case Item(key, value, rest) =>
      Nested(prefix, rest, make) + (if value.Dict? then Trace(FullKey(prefix, KeyText(key)), value.items, make) else [])
  }

  /** Loading a dictionary writes its own items in order, then the nested dictionaries from last to first. */
  function Trace<V>(prefix: string, items: Items<V>, make: bool): seq<Step<V>>
    decreases items, 1
  {
    Own(prefix, items, make) + Nested(prefix, items, make)
  }

  ghost function Puts<V>(steps: seq<Step<V>>): set<(string, Stored<V>)> {
    if steps == [] then {}
    else (if steps[0].Put? then {(steps[0].key, steps[0].value)} else {}) + Puts(steps[1..])
  }

  lemma {:induction false} PutsConcat<V>(a: seq<Step<V>>, b: seq<Step<V>>)
    ensures Puts(a + b) == Puts(a) + Puts(b)
  {
    if a == [] {
      assert a + b == b;
    } else {
      assert (a + b)[1..] == a[1..] + b;
      PutsConcat(a[1..], b);
    }
  }

  lemma {:induction false} NoPuts<V>()
    ensures Puts<V>([]) == {}
  {
  }

  lemma {:induction false} OwnStepPuts<V>(full: string, value: Value<V>, make: bool)
    ensures Puts(OwnStep(full, value, make)) ==
            match value
            case Leaf(v) => {(full, Plain(v))}
            case Dict(_) => if make then {(full, Namespace(full))} else {}
    ensures BadKey !in OwnStep(full, value, make)
  {
    var steps := OwnStep(full, value, make);
    assert steps != [] ==> steps[1..] == [];
  }

  /** If every key is a string, the writes are the entries of recursive flattening. */
  lemma {:induction false} TracePuts<V>(prefix: string, items: Items<V>, make: bool)
    requires AllNames(items)
    ensures Puts(Trace(prefix, items, make)) == Entries(prefix, items, make) && BadKey !in Trace(prefix, items, make)
    decreases items
  {
    hide Puts; hide OwnStep;
    NoPuts<V>();
    PutsConcat(Own(prefix, items, make), Nested(prefix, items, make));
    match items
    case Nil =>
    case Item(key, value, rest) =>
      var full := FullKey(prefix, key.text);
      TracePuts(prefix, rest, make);
      PutsConcat(Own(prefix, rest, make), Nested(prefix, rest, make));
      PutsConcat(OwnStep(full, value, make), Own(prefix, rest, make));
      OwnStepPuts(full, value, make);
      if value.Dict? {
        TracePuts(full, value.items, make);
        PutsConcat(Nested(prefix, rest, make), Trace(full, value.items, make));
      } else {
        assert Nested(prefix, items, make) == Nested(prefix, rest, make);
      }
  }

  /** The store holds the written entries over what was there before. */
  lemma {:induction false} ApplyWrote<V>(before: map<string, Stored<V>>, steps: seq<Step<V>>)
    requires BadKey !in steps
    ensures Wrote(Apply(before, steps), before, Puts(steps))
    decreases |steps|
  {
    if steps == [] {
    } else {
      assert steps[0] in steps;
      ApplyWrote(before[steps[0].key := steps[0].value], steps[1..]);
    }
  }

  // ----- the loop

  ghost function Size<V>(items: Items<V>): nat {
    match items
    case Nil => 0
    case Item(key, value, rest) => 1 + (if value.Dict? then 1 + Size(value.items) else 0) + Size(rest)
  }

  type Work<V> = seq<(string, Items<V>)>

  ghost function Weight<V>(stack: Work<V>): nat {
    if stack == [] then 0 else Weight(Front(stack)) + 1 + Size(Last(stack).1)
  }

  /** The writes still to come for the dictionaries on the stack, the topmost first. */
  ghost function PendingTrace<V>(stack: Work<V>, make: bool): seq<Step<V>> {
    if stack == [] then [] else Trace(Last(stack).0, Last(stack).1, make) + PendingTrace(Front(stack), make)
  }

  ghost predicate PendingNames<V>(stack: Work<V>) {
    stack == [] || (PendingNames(Front(stack)) && AllNames(Last(stack).1))
  }

  lemma {:induction false} PushWork<V>(stack: Work<V>, w: (string, Items<V>), make: bool)
    ensures Weight(stack + [w]) == Weight(stack) + 1 + Size(w.1)
    ensures PendingTrace(stack + [w], make) == Trace(w.0, w.1, make) + PendingTrace(stack, make)
    ensures PendingNames(stack + [w]) <==> PendingNames(stack) && AllNames(w.1)
  {
    assert Front(stack + [w]) == stack;
  }

  /** The store holds the written entries over what was there before; later writes win. */
  ghost predicate Wrote<V>(
    store: map<string, Stored<V>>, before: map<string, Stored<V>>, done: set<(string, Stored<V>)>)
  {
    (forall e :: e in done ==> e.0 in store)
    && (forall k :: k in before ==> k in store)
    && (forall k :: k in store ==>
          (k, store[k]) in done || (k in before && store[k] == before[k] && forall e :: e in done ==> e.0 != k))
  }

  /** A source that is no dictionary fails with UnboundLocalError: its message names a variable not bound yet. */
  datatype Loading = Loaded | KeyTypeError | UnboundKey

  class Config<V> {
    var store: map<string, Stored<V>>

    constructor ()
      ensures store == map[]
    {
      store := map[];
    }

    method LoadDict(source: Value<V>, namespace: string, makeNamespaces: bool) returns (r: Loading)
      modifies this
      ensures r.UnboundKey? <==> !source.Dict?
      ensures r.KeyTypeError? <==> source.Dict? && !AllNames(source.items)
      ensures store == if source.Dict? then Apply(old(store), Trace(namespace, source.items, makeNamespaces))
                       else old(store)
      ensures r.Loaded? ==> Wrote(store, old(store), Entries(namespace, source.items, makeNamespaces))
    {
      hide *;
      if !source.Dict? {
        return UnboundKey;
      }
      ghost var goal := Apply(store, Trace(namespace, source.items, makeNamespaces));
      var stack: Work<V> := [(namespace, source.items)];
      StartWork(namespace, source.items, makeNamespaces);
      while stack != []
        invariant Apply(store, PendingTrace(stack, makeNamespaces)) == goal
        invariant PendingNames(stack) <==> AllNames(source.items)
        decreases Weight(stack)
      {
        ghost var weight := Weight(stack);
        var prefix, items := Last(stack).0, Last(stack).1;
        PopWork(stack, makeNamespaces);
        stack := Front(stack);
        while items.Item?
          invariant Apply(store, Remaining(prefix, items, stack, makeNamespaces)) == goal
          invariant PendingNames(stack) && AllNames(items) <==> AllNames(source.items)
          invariant Weight(stack) + Size(items) < weight
          decreases items
        {
          ItemNames(items);
          ItemSize(items);
          ItemStep(store, prefix, items, stack, makeNamespaces);
          if !items.key.Name? {
            return KeyTypeError;
          }
          var fullKey := FullKey(prefix, items.key.text);
          match items.value {
            case Dict(nested) =>
              PushWork(stack, (fullKey, nested), makeNamespaces);
              stack := stack + [(fullKey, nested)];
              if makeNamespaces {
                store := store[fullKey := Namespace(fullKey)];
              }
            case Leaf(v) =>
              store := store[fullKey := Plain(v)];
          }
          items := items.rest;
        }
        NoItems(prefix, stack, makeNamespaces);
      }
      EmptyWork<V>(store, makeNamespaces);
      TracePuts(namespace, source.items, makeNamespaces);
      ApplyWrote(old(store), Trace(namespace, source.items, makeNamespaces));
      return Loaded;
    }
  }

  /** What is still to be written in the midst of a dictionary. */
  ghost function Remaining<V>(prefix: string, items: Items<V>, stack: Work<V>, make: bool): seq<Step<V>> {
    Trace(prefix, items, make) + PendingTrace(stack, make)
  }

  lemma {:induction false} PopWork<V>(stack: Work<V>, make: bool)
    requires stack != []
    ensures var prefix, items := Last(stack).0, Last(stack).1;
            PendingTrace(stack, make) == Remaining(prefix, items, Front(stack), make)
            && (PendingNames(stack) <==> PendingNames(Front(stack)) && AllNames(items))
            && Weight(Front(stack)) + Size(items) < Weight(stack)
  {
  }

  /** Reading one item: an error ends the writes; a nested dictionary goes on the stack, its own entry is written. */
  lemma {:induction false} ItemStep<V>(
    store: map<string, Stored<V>>, prefix: string, items: Items<V>, stack: Work<V>, make: bool)
    requires items.Item?
    ensures var value, rest := items.value, items.rest;
            Apply(store, Remaining(prefix, items, stack, make)) ==
            if !items.key.Name? then store
            else
              var full := FullKey(prefix, items.key.text);
              match value
              case Leaf(v) => Apply(store[full := Plain(v)], Remaining(prefix, rest, stack, make))
              case Dict(nested) =>
                var pushed := Remaining(prefix, rest, stack + [(full, nested)], make);
                Apply(if make then store[full := Namespace(full)] else store, pushed)
  {
    hide Apply; hide PendingTrace;
    var key, value, rest := items.key, items.value, items.rest;
    var steps := Remaining(prefix, items, stack, make);
    if !key.Name? {
      assert steps[0] == BadKey;
      ApplyBad(store, steps);
    } else {
      var full := FullKey(prefix, key.text);
      var later :=
        match value
        case Leaf(_) => Remaining(prefix, rest, stack, make)
        case Dict(nested) => Remaining(prefix, rest, stack + [(full, nested)], make);
      StepsRegroup(prefix, items, stack, make, later);
      ApplyOwn(store, full, value, make, later);
    }
  }

  lemma {:induction false} StepsRegroup<V>(
    prefix: string, items: Items<V>, stack: Work<V>, make: bool, later: seq<Step<V>>)
    requires items.Item? && items.key.Name?
    requires var full := FullKey(prefix, items.key.text);
             later == match items.value
                      case Leaf(_) => Remaining(prefix, items.rest, stack, make)
                      case Dict(nested) => Remaining(prefix, items.rest, stack + [(full, nested)], make)
    ensures Remaining(prefix, items, stack, make) ==
            OwnStep(FullKey(prefix, items.key.text), items.value, make) + later
  {
    hide PendingTrace; hide OwnStep; hide FullKey;
    var full, value, rest := FullKey(prefix, items.key.text), items.value, items.rest;
    var own, others, pending := Own(prefix, rest, make), Nested(prefix, rest, make), PendingTrace(stack, make);
    var inner := if value.Dict? then Trace(full, value.items, make) else [];
    assert Nested(prefix, items, make) == others + inner;
    assert Own(prefix, items, make) == OwnStep(full, value, make) + own;
    if value.Dict? {
      PushWork(stack, (full, value.items), make);
    } else {
      assert inner + pending == pending;
    }
    assert later == own + others + (inner + pending);
    hide Own; hide Nested;
    Regroup(OwnStep(full, value, make), own, others, inner, pending);
  }

  lemma {:induction false} Regroup<T>(a: seq<T>, b: seq<T>, c: seq<T>, d: seq<T>, e: seq<T>)
    ensures a + b + (c + d) + e == a + (b + c + (d + e))
  {
  }

  lemma {:induction false} ApplyBad<V>(store: map<string, Stored<V>>, steps: seq<Step<V>>)
    requires steps != [] && steps[0].BadKey?
    ensures Apply(store, steps) == store
  {
  }

  lemma {:induction false} ApplyOwn<V>(
    store: map<string, Stored<V>>, full: string, value: Value<V>, make: bool, later: seq<Step<V>>)
    ensures Apply(store, OwnStep(full, value, make) + later) ==
            match value
            case Leaf(v) => Apply(store[full := Plain(v)], later)
            case Dict(_) => Apply(if make then store[full := Namespace(full)] else store, later)
  {
    var steps := OwnStep(full, value, make) + later;
    if value.Leaf? || make {
      assert steps[1..] == later;
    } else {
      assert steps == later;
    }
  }

  lemma {:induction false} ItemSize<V>(items: Items<V>)
    requires items.Item?
    ensures Size(items) == 1 + (if items.value.Dict? then 1 + Size(items.value.items) else 0) + Size(items.rest)
  {
  }

  lemma {:induction false} ItemNames<V>(items: Items<V>)
    requires items.Item?
    ensures AllNames(items) <==>
            items.key.Name? && (items.value.Dict? ==> AllNames(items.value.items)) && AllNames(items.rest)
  {
  }

  lemma {:induction false} NoItems<V>(prefix: string, stack: Work<V>, make: bool)
    ensures Remaining(prefix, Nil, stack, make) == PendingTrace(stack, make) && AllNames<V>(Nil) && Size<V>(Nil) == 0
  {
    hide PendingTrace;
    assert [] + PendingTrace(stack, make) == PendingTrace(stack, make);
  }

  lemma {:induction false} StartWork<V>(prefix: string, items: Items<V>, make: bool)
    ensures PendingTrace([(prefix, items)], make) == Trace(prefix, items, make)
    ensures PendingNames([(prefix, items)]) <==> AllNames(items)
  {
    PushWork([], (prefix, items), make);
    assert [] + [(prefix, items)] == [(prefix, items)];
  }

  lemma {:induction false} EmptyWork<V>(store: map<string, Stored<V>>, make: bool)
    ensures Apply(store, PendingTrace<V>([], make)) == store && PendingNames<V>([])
  {
  }

  // ----- the same by paths

  type Path = seq<string>

  function Get<V>(items: Items<V>, name: string): Option<Value<V>> {
    match items
    case Nil => None
    case Item(key, value, rest) => if key == Name(name) then Some(value) else Get(rest, name)
  }

  /** The value at the end of a path of keys. */
  function Node<V>(items: Items<V>, path: Path): Option<Value<V>>
    requires path != []
    decreases path
  {
    match Get(items, path[0])
    case None => None
    case Some(value) =>
      if |path| == 1 then Some(value)
      else if value.Leaf? then None
      else Node(value.items, path[1..])
  }

  function Dotted(prefix: string, path: Path): string
    decreases path
  {
    if path == [] then prefix else Dotted(FullKey(prefix, path[0]), path[1..])
  }

  predicate GoodName(name: string) {
    name != "" && forall k :: 0 <= k < |name| ==> name[k] != '.'
  }

  /** Keys are non-empty, without dots, and no dictionary has a key twice. */
  predicate GoodKeys<V>(items: Items<V>) {
    match items
    case Nil => true
    case Item(key, value, rest) =>
      key.Name? && GoodName(key.text) && Get(rest, key.text).None?
      && (value.Dict? ==> GoodKeys(value.items)) && GoodKeys(rest)
  }

  /** What the value at a path makes the store hold. */
  function StoredFor<V>(full: string, value: Value<V>, make: bool): Option<Stored<V>> {
    match value
    case Leaf(v) => Some(Plain(v))
    case Dict(_) => if make then Some(Namespace(full)) else None
  }

  ghost predicate Writes<V>(prefix: string, items: Items<V>, make: bool, path: Path, e: (string, Stored<V>)) {
    path != [] && Node(items, path).Some? && e.0 == Dotted(prefix, path)
    && StoredFor(e.0, Node(items, path).value, make) == Some(e.1)
  }

  /** Every entry comes from a path. */
  lemma {:induction false} EntryHasPath<V>(prefix: string, items: Items<V>, make: bool, e: (string, Stored<V>))
    returns (path: Path)
    requires GoodKeys(items) && e in Entries(prefix, items, make)
    ensures Writes(prefix, items, make, path, e)
    decreases items
  {
    var name, value, rest := items.key.text, items.value, items.rest;
    var full := FullKey(prefix, name);
    if e in Entries(prefix, rest, make) {
      path := EntryHasPath(prefix, rest, make, e);
      assert path[0] != name;
    } else if value.Dict? && e in Entries(full, value.items, make) {
      var inner := EntryHasPath(full, value.items, make, e);
      path := [name] + inner;
      assert path[1..] == inner;
    } else {
      path := [name];
      assert path[1..] == [];
    }
  }

  /** Every path has its entry. */
  lemma {:induction false} PathHasEntry<V>(
    prefix: string, items: Items<V>, make: bool, path: Path, e: (string, Stored<V>))
    requires Writes(prefix, items, make, path, e)
    ensures e in Entries(prefix, items, make)
    decreases items
  {
    if items.key == Name(path[0]) {
      if |path| > 1 {
        PathHasEntry(FullKey(prefix, path[0]), items.value.items, make, path[1..], e);
      } else {
        assert path[1..] == [];
      }
    } else {
      PathHasEntry(prefix, items.rest, make, path, e);
    }
  }

  lemma {:induction false} NodeNamesAreGood<V>(items: Items<V>, path: Path)
    requires GoodKeys(items) && path != [] && Node(items, path).Some?
    ensures forall i :: 0 <= i < |path| ==> GoodName(path[i])
    decreases items
  {
    if items.key == Name(path[0]) {
      if |path| > 1 {
        NodeNamesAreGood(items.value.items, path[1..]);
        assert forall i :: 1 <= i < |path| ==> path[i] == path[1..][i - 1];
      }
    } else {
      var rest := items.rest;
      assert Node(rest, path) == Node(items, path);
      NodeNamesAreGood(rest, path);
    }
  }

  /** The dotted names behind a non-empty prefix. */
  function Tail(path: Path): string {
    if path == [] then "" else "." + path[0] + Tail(path[1..])
  }

  lemma {:induction false} DottedTail(prefix: string, path: Path)
    requires prefix != ""
    ensures Dotted(prefix, path) == prefix + Tail(path)
    decreases path
  {
    if path == [] {
      assert prefix + "" == prefix;
    } else {
      DottedTail(FullKey(prefix, path[0]), path[1..]);
      assert prefix + "." + path[0] + Tail(path[1..]) == prefix + ("." + path[0] + Tail(path[1..]));
    }
  }

  /** A dot-free name is everything up to the first dot. */
  lemma {:induction false} FirstName(a: string, s: string, b: string, t: string)
    requires GoodName(a) && GoodName(b) && a + s == b + t
    requires (s == "" || s[0] == '.') && (t == "" || t[0] == '.')
    ensures a == b && s == t
  {
    var w := a + s;
    assert forall i :: 0 <= i < |a| ==> w[i] == a[i];
    assert forall i :: 0 <= i < |b| ==> w[i] == b[i];
    assert s != "" ==> w[|a|] == s[0];
    assert t != "" ==> w[|b|] == t[0];
    if |a| < |b| || |b| < |a| {
      assert false;
    }
    assert a == (a + s)[..|a|] && b == (b + t)[..|b|];
    assert s == (a + s)[|a|..] && t == (b + t)[|b|..];
  }

  predicate GoodPath(path: Path) {
    forall i :: 0 <= i < |path| ==> GoodName(path[i])
  }

  lemma {:induction false} TailInjective(p: Path, q: Path)
    requires GoodPath(p) && GoodPath(q) && Tail(p) == Tail(q)
    ensures p == q
  {
    if p == [] || q == [] {
      TailStart(p);
      TailStart(q);
    } else {
      NamesThenTail(p[0], p[1..], q[0], q[1..]);
      TailInjective(p[1..], q[1..]);
      assert p == [p[0]] + p[1..] && q == [q[0]] + q[1..];
    }
  }

  lemma {:induction false} NamesThenTail(a: string, p: Path, b: string, q: Path)
    requires GoodName(a) && GoodName(b) && "." + a + Tail(p) == "." + b + Tail(q)
    ensures a == b && Tail(p) == Tail(q)
  {
    var s, t := Tail(p), Tail(q);
    assert "." + a + s == "." + (a + s) && "." + b + t == "." + (b + t);
    assert a + s == ("." + (a + s))[1..] && b + t == ("." + (b + t))[1..];
    TailStart(p);
    TailStart(q);
    FirstName(a, s, b, t);
  }

  lemma {:induction false} TailStart(p: Path)
    ensures if p == [] then Tail(p) == "" else Tail(p) != "" && Tail(p)[0] == '.'
  {
  }

  /** Different paths never collide: they have different dotted names. */
  lemma {:induction false} DottedInjective(prefix: string, p: Path, q: Path)
    requires GoodPath(p) && GoodPath(q) && p != [] && q != [] && Dotted(prefix, p) == Dotted(prefix, q)
    ensures p == q
  {
    hide Tail;
    DottedTail(FullKey(prefix, p[0]), p[1..]);
    DottedTail(FullKey(prefix, q[0]), q[1..]);
    if prefix == "" {
      TailStart(p[1..]);
      TailStart(q[1..]);
      FirstName(p[0], Tail(p[1..]), q[0], Tail(q[1..]));
      TailInjective(p[1..], q[1..]);
      assert p == [p[0]] + p[1..] && q == [q[0]] + q[1..];
    } else {
      DottedTail(prefix, p);
      DottedTail(prefix, q);
      assert Tail(p) == (prefix + Tail(p))[|prefix|..] && Tail(q) == (prefix + Tail(q))[|prefix|..];
      TailInjective(p, q);
    }
  }

  /** With good keys no two entries share a name. */
  lemma {:induction false} EntriesDoNotCollide<V>(
    prefix: string, items: Items<V>, make: bool, a: (string, Stored<V>), b: (string, Stored<V>))
    requires GoodKeys(items) && a in Entries(prefix, items, make) && b in Entries(prefix, items, make) && a.0 == b.0
    ensures a == b
  {
    hide Entries; hide Node; hide Dotted;
    var p := EntryHasPath(prefix, items, make, a);
    var q := EntryHasPath(prefix, items, make, b);
    NodeNamesAreGood(items, p);
    NodeNamesAreGood(items, q);
    DottedInjective(prefix, p, q);
  }

  /** The loaded configuration, name by name: what a path leads to, or else what was there before. */
  lemma {:induction false} LoadedByPath<V>(
    store: map<string, Stored<V>>, before: map<string, Stored<V>>, prefix: string, items: Items<V>, make: bool)
    requires GoodKeys(items) && Wrote(store, before, Entries(prefix, items, make))
    ensures forall path, e :: Writes(prefix, items, make, path, e) ==> e.0 in store && store[e.0] == e.1
    ensures forall k :: k in store ==>
              (exists path :: Writes(prefix, items, make, path, (k, store[k])))
              || (k in before && store[k] == before[k])
    ensures forall k :: k in before ==> k in store
  {
    hide Entries; hide Writes;
    forall path, e | Writes(prefix, items, make, path, e) ensures e.0 in store && store[e.0] == e.1 {
      PathHasEntry(prefix, items, make, path, e);
      if (e.0, store[e.0]) in Entries(prefix, items, make) {
        EntriesDoNotCollide(prefix, items, make, e, (e.0, store[e.0]));
      }
    }
    forall k | k in store
      ensures (exists path :: Writes(prefix, items, make, path, (k, store[k])))
              || (k in before && store[k] == before[k])
    {
      if (k, store[k]) in Entries(prefix, items, make) {
        var path := EntryHasPath(prefix, items, make, (k, store[k]));
      }
    }
  }

  // ----- the names and the order spelled out

  /** The dotted name is the keys joined by dots, behind the namespace and a dot if there is one. */
  lemma {:induction false} DottedIsJoin(prefix: string, path: Path)
    requires path != [] && (prefix != "" || path[0] != "")
    ensures Dotted(prefix, path) == (if prefix == "" then "" else prefix + ".") + Join(path, '.')
    decreases path
  {
    var full := FullKey(prefix, path[0]);
    if |path| == 1 {
      assert path[1..] == [];
      assert "" + path[0] == path[0];
    } else {
      DottedIsJoin(full, path[1..]);
      assert full + "." + Join(path[1..], '.') ==
             (if prefix == "" then "" else prefix + ".") + (path[0] + ['.'] + Join(path[1..], '.'));
    }
  }

  function Item1<V>(key: string, value: Value<V>, rest: Items<V>): Items<V> {
    Item(Name(key), value, rest)
  }

  /**
   * Which of two colliding values stays: one nested in a dictionary over one written beside it, and one
   * in an earlier dictionary over one in a later dictionary.
   */
  lemma {:induction false} CollidingWrites<V>(x: V, y: V)
    ensures var items := Item1("a", Dict(Item1("b", Leaf(x), Nil)), Item1("a.b", Leaf(y), Nil));
            Apply(map[], Trace("", items, false)) == map["a.b" := Plain(x)]
    ensures var earlier, later := Item1("b.c", Leaf(x), Nil), Item1("c", Leaf(y), Nil);
            var items := Item1("a", Dict(earlier), Item1("a.b", Dict(later), Nil));
            Apply(map[], Trace("", items, false)) == map["a.b.c" := Plain(x)]
  {
    hide Trace; hide Own; hide Nested; hide Apply; hide FullKey;
    var under := Item1("b", Leaf(x), Nil);
    OneLeaf("a", "b", x);
    OneItem("", "a.b", Leaf(y));
    TwoItems("", "a", Dict(under), "a.b", Leaf(y));
    TwoWrites("a.b", Plain(y), Plain(x));
    var earlier, later := Item1("b.c", Leaf(x), Nil), Item1("c", Leaf(y), Nil);
    OneLeaf("a", "b.c", x);
    OneLeaf("a.b", "c", y);
    TwoItems("", "a", Dict(earlier), "a.b", Dict(later));
    TwoWrites("a.b.c", Plain(y), Plain(x));
    FullKeys();
  }

  lemma {:induction false} FullKeys()
    ensures FullKey("", "a") == "a" && FullKey("", "a.b") == "a.b"
    ensures FullKey("a", "b") == "a.b" && FullKey("a", "b.c") == "a.b.c" && FullKey("a.b", "c") == "a.b.c"
  {
  }

  /** The writes for one item: its own, then those nested in it. */
  lemma {:induction false} OneItem<V>(prefix: string, key: string, value: Value<V>)
    ensures var items, full := Item1(key, value, Nil), FullKey(prefix, key);
            Own(prefix, items, false) == OwnStep(full, value, false)
            && Nested(prefix, items, false) == if value.Dict? then Trace(full, value.items, false) else []
  {
    hide Trace; hide OwnStep; hide FullKey;
    var none: Items<V> := Nil;
    assert Own(prefix, none, false) == [] && Nested(prefix, none, false) == [];
  }

  /** The writes for two items: their own in order, then those nested in the second before those in the first. */
  lemma {:induction false} TwoItems<V>(prefix: string, key: string, value: Value<V>, key': string, value': Value<V>)
    ensures var full, full' := FullKey(prefix, key), FullKey(prefix, key');
            Trace(prefix, Item1(key, value, Item1(key', value', Nil)), false) ==
            OwnStep(full, value, false) + OwnStep(full', value', false)
            + (if value'.Dict? then Trace(full', value'.items, false) else [])
            + (if value.Dict? then Trace(full, value.items, false) else [])
  {
    hide OwnStep; hide FullKey;
    OneItem(prefix, key', value');
    var rest := Item1(key', value', Nil);
    assert Own(prefix, Item1(key, value, rest), false) ==
           OwnStep(FullKey(prefix, key), value, false) + Own(prefix, rest, false);
  }

  lemma {:induction false} OneLeaf<V>(prefix: string, key: string, v: V)
    ensures Trace(prefix, Item1(key, Leaf(v), Nil), false) == [Put(FullKey(prefix, key), Plain(v))]
  {
    hide FullKey;
    OneItem(prefix, key, Leaf(v));
  }

  lemma {:induction false} TwoWrites<V>(k: string, first: Stored<V>, second: Stored<V>)
    ensures Apply(map[], [Put(k, first)] + [Put(k, second)]) == map[k := second]
    ensures Apply(map[], [] + [] + [Put(k, first)] + [Put(k, second)]) == map[k := second]
    ensures Apply(map[], [] + [Put(k, first)] + [] + [Put(k, second)]) == map[k := second]
  {
    var steps := [Put(k, first)] + [Put(k, second)];
    assert [] + [] + [Put(k, first)] + [Put(k, second)] == steps == [] + [Put(k, first)] + [] + [Put(k, second)];
    assert steps[1..] == [Put(k, second)] && [Put(k, second)][1..] == [];
    var one: map<string, Stored<V>> := map[k := first];
    assert Apply(one, [Put(k, second)]) == Apply(one[k := second], []);
    assert one[k := second] == map[k := second];
  }
}
