/**
 * The children of a directory: an ordered map from name to file key, as the
 * source's `BTreeMap<String, FileKey>`. It is kept as its in-order contents, a
 * sequence of entries whose names strictly ascend, so that listing the map is
 * reading the sequence.
 */
module Children {
  import opened Wrappers
  import opened Text

  datatype Entry = Entry(name: string, key: nat)

  /** Names strictly ascend, so each name occurs at most once. */
  ghost predicate Sorted(c: seq<Entry>) {
    forall i, j :: 0 <= i < j < |c| ==> Less(c[i].name, c[j].name)
  }

  /** `BTreeMap::get`. */
  function Get(c: seq<Entry>, name: string): (r: Option<nat>)
    ensures r.Some? ==> Entry(name, r.value) in c
    ensures r.None? <==> forall i :: 0 <= i < |c| ==> c[i].name != name
  {
    if c == [] then None
    else if c[0].name == name then Some(c[0].key)
    else Get(c[1..], name)
  }

  /** In a sorted map, looking up an entry's name finds that entry. */
  lemma {:induction false} GetFindsEntry(c: seq<Entry>, i: nat)
    requires Sorted(c) && i < |c|
    ensures Get(c, c[i].name) == Some(c[i].key)
    decreases i
  {
    if i > 0 {
      assert Less(c[0].name, c[i].name);
      LessIrreflexive(c[i].name);
      GetFindsEntry(c[1..], i - 1);
    }
  }

  /** `BTreeMap::insert`: adds the entry in name order, replacing the value of an equal name. */
  function Insert(c: seq<Entry>, name: string, key: nat): seq<Entry>
  {
    if c == [] then [Entry(name, key)]
    else if Less(name, c[0].name) then [Entry(name, key)] + c
    else if name == c[0].name then [Entry(name, key)] + c[1..]
    else [c[0]] + Insert(c[1..], name, key)
  }

  lemma {:induction false} InsertEntries(c: seq<Entry>, name: string, key: nat)
    ensures forall e :: e in Insert(c, name, key) ==> e in c || e == Entry(name, key)
    ensures Entry(name, key) in Insert(c, name, key)
    decreases |c|
  {
    if c != [] && !Less(name, c[0].name) && name != c[0].name {
      InsertEntries(c[1..], name, key);
    }
  }

  lemma {:induction false} InsertSorted(c: seq<Entry>, name: string, key: nat)
    requires Sorted(c)
    ensures Sorted(Insert(c, name, key))
    decreases |c|
  {
    var r := Insert(c, name, key);
    if c == [] {
    } else if Less(name, c[0].name) {
      forall i, j | 0 <= i < j < |r| ensures Less(r[i].name, r[j].name) {
        if i == 0 && j > 1 {
          LessTransitive(name, c[0].name, c[j - 1].name);
        }
      }
    } else if name == c[0].name {
    } else {
      LessTotal(name, c[0].name);
      InsertSorted(c[1..], name, key);
      InsertEntries(c[1..], name, key);
      forall j | 0 < j < |r| ensures Less(c[0].name, r[j].name) {
        assert r[j] in Insert(c[1..], name, key);
      }
    }
  }

  lemma {:induction false} GetAfterInsert(c: seq<Entry>, name: string, key: nat, n: string)
    requires Sorted(c)
    ensures Get(Insert(c, name, key), n) == if n == name then Some(key) else Get(c, n)
    decreases |c|
  {
    if c != [] {
      if Less(name, c[0].name) {
      } else if name == c[0].name {
      } else {
        GetAfterInsert(c[1..], name, key, n);
      }
    }
  }

  /** A name above every present name goes to the end. */
  lemma {:induction false} InsertAtEnd(c: seq<Entry>, name: string, key: nat)
    requires forall i :: 0 <= i < |c| ==> Less(c[i].name, name)
    ensures Insert(c, name, key) == c + [Entry(name, key)]
    decreases |c|
  {
    if c != [] {
      LessAsymmetric(c[0].name, name);
      LessIrreflexive(name);
      InsertAtEnd(c[1..], name, key);
      assert c == [c[0]] + c[1..];
    }
  }
}
