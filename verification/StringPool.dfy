/**
 * String interning, src/core/string_pool.cpp:30-96, with the collector reduced to the set of
 * string objects it manages.
 */
module StringPool {

  class GCString {
    const text: string

    constructor (text: string)
      ensures this.text == text
    {
      this.text := text;
    }
  }

  /** What can go wrong, or happen meanwhile, when a new string object is made. */
  datatype Luck = Luck(createFails: bool, insertFails: bool, internedMeanwhile: bool)

  class Pool {
    const maxStringBytes: nat

    var pool: map<string, GCString>
    ghost var managed: set<GCString>

    /** Every managed string object is the one the pool holds for its content. */
    ghost predicate Valid()
      reads this
    {
      && (forall s | s in pool :: pool[s].text == s && pool[s] in managed)
      && (forall o | o in managed :: o.text in pool && pool[o.text] == o)
    }

    constructor (maxStringBytes: nat)
      ensures Valid() && managed == {} && this.maxStringBytes == maxStringBytes
    {
      this.maxStringBytes := maxStringBytes;
      pool, managed := map[], {};
    }

    /** Two live strings are one object exactly if their contents are equal: comparing
        pointers compares strings. */
    lemma PointerEqualityIsContentEquality(a: GCString, b: GCString)
      requires Valid() && a in managed && b in managed
      ensures a == b <==> a.text == b.text
    {
      assert pool[a.text] == a && pool[b.text] == b;
    }

    /** The object of a content; null stands for an exception, which leaves no trace. */
    method Intern(text: string, luck: Luck) returns (s: GCString?)
      requires Valid()
      modifies this
      ensures Valid() && old(managed) <= managed
      ensures s != null ==> s in managed && s.text == text && managed <= old(managed) + {s}
      ensures s != null ==> s in old(managed) || fresh(s)
      ensures text in old(pool) && |text| <= maxStringBytes ==> s == old(pool)[text] && managed == old(managed)
      ensures s == null ==> |text| > maxStringBytes || luck.createFails || (luck.insertFails && !luck.internedMeanwhile)
      ensures |text| > maxStringBytes || (text !in old(pool) && luck.createFails) ==> s == null
      ensures s == null ==> managed == old(managed) && pool == old(pool)
      decreases luck.internedMeanwhile
    {
      if |text| > maxStringBytes {
        return null;
      }
      if text in pool {
        return pool[text];
      }
      if luck.createFails {
        return null;
      }
      var newString := new GCString(text);
      if luck.internedMeanwhile {
        // Making the object ran code that interned the same content first.
        s := Intern(text, Luck(false, false, false));
      }
      managed := managed + {newString};
      if text in pool {
        DestroyManagedObject(newString);
        return pool[text];
      }
      if luck.insertFails {
        DestroyManagedObject(newString);
        return null;
      }
      pool := pool[text := newString];
      return newString;
    }

    method Find(text: string) returns (s: GCString?)
      requires Valid()
      ensures s != null ==> s in managed && s.text == text
      ensures s == null ==> forall o | o in managed :: o.text != text
    {
      s := if text in pool then pool[text] else null;
    }

    /** Drops the pool entry of an object, but never the entry of another object with the same content. */
    method Remove(s: GCString?)
      modifies this`pool
      ensures pool == if s != null && s.text in old(pool) && old(pool)[s.text] == s
                      then old(pool) - {s.text} else old(pool)
    {
      if s == null {
        return;
      }
      if s.text in pool && pool[s.text] == s {
        pool := pool - {s.text};
      }
    }

    /** The collector frees an object: a dead one, or one whose insertion failed. */
    method DestroyManagedObject(s: GCString)
      requires s in managed
      requires forall t | t in pool :: pool[t].text == t && pool[t] in managed
      requires forall o | o in managed && o != s :: o.text in pool && pool[o.text] == o
      modifies this
      ensures Valid() && managed == old(managed) - {s}
      ensures pool == if s.text in old(pool) && old(pool)[s.text] == s then old(pool) - {s.text} else old(pool)
    {
      Remove(s);
      managed := managed - {s};
    }
  }
}
