/**
 * The engine's entity registry: an ordered list of game objects that
 * entities are appended to and removed from.
 */
module Core {

  /** Position of the first occurrence of `e` in `s`. */
  function IndexOf<E(==)>(s: seq<E>, e: E): (k: nat)
    requires e in s
    ensures k < |s| && s[k] == e && e !in s[..k]
  {
    if s[0] == e then 0 else 1 + IndexOf(s[1..], e)
  }

  /**
   * Python's `list.remove(e)`: the first occurrence of `e` is taken out and
   * the other entities keep their relative order; a list without `e` is
   * returned as it is.
   */
  function RemoveFirst<E(==)>(s: seq<E>, e: E): (r: seq<E>)
    ensures e !in s ==> r == s
    ensures e in s ==> |r| == |s| - 1
  {
    if s == [] then []
    else if s[0] == e then s[1..]
    else [s[0]] + RemoveFirst(s[1..], e)
  }

  /** Removal cuts out exactly the first occurrence and keeps everything else in order. */
  lemma {:induction false} RemoveFirstSplice<E>(s: seq<E>, e: E)
    requires e in s
    ensures RemoveFirst(s, e) == s[..IndexOf(s, e)] + s[IndexOf(s, e) + 1..]
  {
    if s[0] != e {
      RemoveFirstSplice(s[1..], e);
      var k := IndexOf(s[1..], e);
      assert s[1..][..k] == s[1..k + 1];
      assert s[1..][k + 1..] == s[k + 2..];
      assert [s[0]] + s[1..k + 1] == s[..k + 1];
    }
  }

  /** Removal takes exactly one copy of `e` out of the list's multiset (none when absent). */
  lemma {:induction false} RemoveFirstMultiset<E>(s: seq<E>, e: E)
    ensures multiset(RemoveFirst(s, e)) == multiset(s) - multiset{e}
  {
    if s != [] {
      assert s == [s[0]] + s[1..];
      if s[0] != e {
        RemoveFirstMultiset(s[1..], e);
      }
    }
  }

  /** Appending an entity that was not registered and then removing it gives back the list. */
  lemma {:induction false} AddThenRemove<E>(s: seq<E>, e: E)
    requires e !in s
    ensures RemoveFirst(s + [e], e) == s
  {
    if s != [] {
      assert (s + [e])[1..] == s[1..] + [e];
      AddThenRemove(s[1..], e);
    }
  }

  /** The engine object; only its entity list changes after construction. */
  class GameEngine<E(==)> {
    const screenWidth: int
    const screenHeight: int
    var entities: seq<E>

    /** A new engine has no entities. */
    constructor (screenWidth: int := 800, screenHeight: int := 600)
      ensures this.screenWidth == screenWidth && this.screenHeight == screenHeight
      ensures entities == []
    {
      this.screenWidth := screenWidth;
      this.screenHeight := screenHeight;
      entities := [];
    }

    /** `add_entity`: the entity goes at the end, earlier entries untouched. */
    method AddEntity(e: E)
      modifies this
      ensures entities == old(entities) + [e]
      ensures |entities| == |old(entities)| + 1 && entities[..|old(entities)|] == old(entities)
    {
      entities := entities + [e];
    }

    /** `remove_entity`: removes the first occurrence of a registered entity, ignores any other. */
    method RemoveEntity(e: E)
      modifies this
      ensures entities == RemoveFirst(old(entities), e)
      ensures e in old(entities) ==>
        var k := IndexOf(old(entities), e);
        entities == old(entities)[..k] + old(entities)[k + 1..]
      ensures e !in old(entities) ==> entities == old(entities)
    {
      if e in entities {
        RemoveFirstSplice(entities, e);
        entities := RemoveFirst(entities, e);
      }
    }
  }
}
