/**
 * Whitelist-guarded dynamic ordering by a column name supplied at run time.
 * A record type's public instance properties and fields are given as tables
 * of named key extractors; ordering by a member is a sorted permutation of
 * the rows by that member's key.
 */
module Ordering {
  import opened Wrappers
  import opened Text
  import opened Sorting

  /** A public instance property or field of a record type and the value it reads from a row. */
  datatype Member<!R> = Member(name: string, key: R -> int)

  /** The public instance properties and fields of a record type, in declaration order. */
  datatype TypeMembers<!R> = TypeMembers(properties: seq<Member<R>>, fields: seq<Member<R>>)

  /** The equality a `HashSet<string>` was built with. */
  datatype StringComparer = Ordinal | OrdinalIgnoreCase

  /** A caller-supplied whitelist of sortable column names. */
  datatype Whitelist =
    /** Any sequence of names that is not already a HashSet. */
    | Names(names: seq<string>)
    /** A HashSet, which keeps its own comparer. */
    | HashSetOf(elements: set<string>, comparer: StringComparer)

  predicate Matches(comparer: StringComparer, a: string, b: string) {
    match comparer
    case Ordinal => a == b
    case OrdinalIgnoreCase => EqualsIgnoreCase(a, b)
  }

  /**
   * The membership test: a HashSet is asked with its own comparer; any other
   * sequence of names is first copied into a case-insensitive set.
   */
  function WhitelistContains(w: Whitelist, name: string): (r: bool)
    ensures w.Names? ==> (r <==> Fold(name) in FoldedSet(set n | n in w.names))
    ensures w.HashSetOf? && w.comparer == Ordinal ==> (r <==> name in w.elements)
    ensures w.HashSetOf? && w.comparer == OrdinalIgnoreCase ==> (r <==> Fold(name) in FoldedSet(w.elements))
  {
    match w
    case Names(names) => exists i | 0 <= i < |names| :: EqualsIgnoreCase(names[i], name)
    case HashSetOf(elements, comparer) => exists e | e in elements :: Matches(comparer, e, name)
  }

  /** The folded spellings of a set of names: what a case-insensitive set compares against. */
  function FoldedSet(names: set<string>): set<string> {
    set n | n in names :: Fold(n)
  }

  predicate HasNamed<R>(members: seq<Member<R>>, name: string) {
    exists i | 0 <= i < |members| :: EqualsIgnoreCase(members[i].name, name)
  }

  /** The first member, in declaration order, whose name equals `name` ignoring case. */
  function FindByName<R>(members: seq<Member<R>>, name: string): (r: Option<R -> int>)
    ensures r.Some? <==> HasNamed(members, name)
    ensures r.Some? ==> exists i | 0 <= i < |members| :: EqualsIgnoreCase(members[i].name, name) && r.value == members[i].key
  {
    if members == [] then None
    else if EqualsIgnoreCase(members[0].name, name) then Some(members[0].key)
    else
      var r := FindByName(members[1..], name);
      assert forall i | 0 <= i < |members| - 1 :: members[1..][i] == members[i + 1];
      r
  }

  /**
   * The member lookup of OrderBySafe: a property of that name (ignoring case),
   * else a field of that name, else nothing.
   */
  function FindMember<R>(t: TypeMembers<R>, name: string): (r: Option<R -> int>)
    ensures r.Some? <==> HasNamed(t.properties, name) || HasNamed(t.fields, name)
    ensures HasNamed(t.properties, name) ==>
      exists i | 0 <= i < |t.properties| :: EqualsIgnoreCase(t.properties[i].name, name) && r.value == t.properties[i].key
    ensures !HasNamed(t.properties, name) && HasNamed(t.fields, name) ==>
      exists i | 0 <= i < |t.fields| :: EqualsIgnoreCase(t.fields[i].name, name) && r.value == t.fields[i].key
  {
    match FindByName(t.properties, name)
    case Some(key) => Some(key)
    case None => FindByName(t.fields, name)
  }

  /** The requested column passes all three guards of OrderBySafe: it is not blank, it is whitelisted, it exists. */
  predicate Accepted<R>(t: TypeMembers<R>, sortBy: Option<string>, allowed: Option<Whitelist>) {
    && !IsNullOrWhiteSpace(sortBy)
    && (allowed.None? || WhitelistContains(allowed.value, sortBy.value))
    && FindMember(t, sortBy.value).Some?
  }

  /**
   * OrderBySafe: the rows ordered by the requested member, ascending or
   * descending, when the request is accepted; the rows untouched otherwise.
   * Either way the same rows come back.
   */
  function OrderBySafe<R>(source: seq<R>, sortBy: Option<string>, desc: bool, allowed: Option<Whitelist>, t: TypeMembers<R>): (r: seq<R>)
    ensures multiset(r) == multiset(source) && |r| == |source|
    ensures !Accepted(t, sortBy, allowed) ==> r == source
    ensures Accepted(t, sortBy, allowed) ==> SortedBy(r, FindMember(t, sortBy.value).value, desc)
  {
    if IsNullOrWhiteSpace(sortBy) then source
    else if allowed.Some? && !WhitelistContains(allowed.value, sortBy.value) then source
    else
      match FindMember(t, sortBy.value)
      case None => source
      case Some(key) =>
        var r := OrderByKey(source, key, desc);
        assert |multiset(r)| == |r| && |multiset(source)| == |source|;
        r
  }

  /** An empty whitelist rejects every column; no whitelist skips the check. */
  lemma WhitelistPresence<R>(t: TypeMembers<R>, sortBy: Option<string>)
    ensures !Accepted(t, sortBy, Some(Names([])))
    ensures !Accepted(t, sortBy, Some(HashSetOf({}, OrdinalIgnoreCase)))
    ensures Accepted(t, sortBy, None) <==> !IsNullOrWhiteSpace(sortBy) && FindMember(t, sortBy.value).Some?
  {
  }

  /** A whitelist that is not a HashSet matches names ignoring case. */
  lemma {:induction false} NamesWhitelistIgnoresCase(names: seq<string>, a: string, b: string)
    requires EqualsIgnoreCase(a, b)
    ensures WhitelistContains(Names(names), a) <==> WhitelistContains(Names(names), b)
  {
  }

  /** A column name spelled with different case: "name" is found as "Name". */
  lemma CaseDifferentSpelling()
    ensures EqualsIgnoreCase("name", "Name")
    ensures WhitelistContains(Names(["Name", "EnginePower", "Id"]), "name")
    ensures !WhitelistContains(HashSetOf({"Name"}, Ordinal), "name")
  {
    assert Fold("name") == "NAME" by {
      assert Fold("e") == "E";
      assert Fold("me") == "ME";
      assert Fold("ame") == "AME";
    }
    assert Fold("Name") == "NAME" by {
      assert Fold("e") == "E";
      assert Fold("me") == "ME";
      assert Fold("ame") == "AME";
    }
    assert EqualsIgnoreCase(["Name", "EnginePower", "Id"][0], "name");
  }

  /** Every entry of a plain whitelist admits its own spelling and its upper-cased spelling. */
  lemma UpperCasedEntryIsWhitelisted(names: seq<string>, i: int)
    requires 0 <= i < |names|
    ensures WhitelistContains(Names(names), names[i])
    ensures WhitelistContains(Names(names), Fold(names[i]))
  {
    FoldIdempotent(names[i]);
  }

  /** An accepted column with a distinguishing key leaves no choice: every sorted arrangement is the result. */
  lemma OrderBySafeDeterministic<R>(source: seq<R>, other: seq<R>, sortBy: Option<string>, desc: bool, allowed: Option<Whitelist>, t: TypeMembers<R>)
    requires Accepted(t, sortBy, allowed)
    requires KeyIsUnique(source, FindMember(t, sortBy.value).value)
    requires multiset(other) == multiset(source)
    ensures OrderBySafe(other, sortBy, desc, allowed, t) == OrderBySafe(source, sortBy, desc, allowed, t)
  {
    var key := FindMember(t, sortBy.value).value;
    var r := OrderBySafe(source, sortBy, desc, allowed, t);
    assert KeyIsUnique(r, key) by {
      forall x, y | x in r && y in r && key(x) == key(y) ensures x == y {
        assert x in multiset(r) && y in multiset(r);
        assert x in multiset(source) && y in multiset(source);
      }
    }
    SortedPermutationUnique(r, OrderBySafe(other, sortBy, desc, allowed, t), key, desc);
  }
}
