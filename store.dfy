/** The notebook records of the Index page and the three list rewrites its
    handlers perform: appending a fresh record (spread), removing by id
    (`filter`) and committing a draft into the records with a given id (`map`).
    Ids come from a clock in the page and are not unique, so removal and update
    are specified for every record that carries the id. */
module NotebookStore {

  datatype Option<T> = None | Some(value: T)

  /** One notebook. `isPrivate` and `pin` are carried as inert data. */
  datatype Notebook = Notebook(id: int, name: string, content: string, isPrivate: bool, pin: string)

  /** The record built by the "Add Notebook" handler for a given id. */
  function NewNotebook(id: int): Notebook
  {
    Notebook(id, "New Notebook", "", false, "")
  }

  /** The list after adding a notebook: the old records followed by a new one. */
  function Appended(ns: seq<Notebook>, id: int): seq<Notebook>
  {
    ns + [NewNotebook(id)]
  }

  /** Some record of `ns` carries `id`. */
  predicate HasId(ns: seq<Notebook>, id: int)
  {
    exists i :: 0 <= i < |ns| && ns[i].id == id
  }

  /** The records of `ns` whose id differs from `id`, in order. */
  function WithoutId(ns: seq<Notebook>, id: int): (r: seq<Notebook>)
    ensures |r| <= |ns|
    ensures forall n :: n in r <==> n in ns && n.id != id
  {
    if ns == [] then []
    else
      (if ns[0].id == id then [] else [ns[0]]) + WithoutId(ns[1..], id)
  }

  /** `ns` with the content of every record whose id is `id` replaced by `text`. */
  function WithContent(ns: seq<Notebook>, id: int, text: string): (r: seq<Notebook>)
    ensures |r| == |ns|
    ensures forall i :: 0 <= i < |ns| ==>
      r[i] == if ns[i].id == id then ns[i].(content := text) else ns[i]
  {
    if ns == [] then []
    else
      [if ns[0].id == id then ns[0].(content := text) else ns[0]] + WithContent(ns[1..], id, text)
  }

  // ---- adding ----

  /** Adding puts exactly one new record at the end; earlier records stay put. */
  lemma AppendedShape(ns: seq<Notebook>, id: int)
    ensures |Appended(ns, id)| == |ns| + 1
    ensures forall i :: 0 <= i < |ns| ==> Appended(ns, id)[i] == ns[i]
    ensures var n := Appended(ns, id)[|ns|];
      n.id == id && n.name == "New Notebook" && n.content == "" && !n.isPrivate && n.pin == ""
  {
  }

  // ---- removing ----

  /** Removal distributes over concatenation, so the kept records keep their
      relative order. */
  lemma {:induction false} WithoutIdConcat(a: seq<Notebook>, b: seq<Notebook>, id: int)
    ensures WithoutId(a + b, id) == WithoutId(a, id) + WithoutId(b, id)
  {
    if a == [] {
      assert a + b == b;
    } else {
      assert (a + b)[1..] == a[1..] + b;
      WithoutIdConcat(a[1..], b, id);
    }
  }

  /** Removal keeps every record whose id differs exactly as many times as it
      occurs, and no record with the id: `filter` makes no copies. */
  lemma {:induction false} WithoutIdCounts(ns: seq<Notebook>, id: int)
    ensures forall n :: multiset(WithoutId(ns, id))[n] == if n.id == id then 0 else multiset(ns)[n]
  {
    if ns != [] {
      WithoutIdCounts(ns[1..], id);
      assert ns == [ns[0]] + ns[1..];
    }
  }

  /** A removal of one record from the middle: both neighbours keep their order. */
  lemma {:induction false} WithoutIdAround(a: seq<Notebook>, n: Notebook, b: seq<Notebook>, id: int)
    ensures WithoutId(a + [n] + b, id) ==
      WithoutId(a, id) + (if n.id == id then [] else [n]) + WithoutId(b, id)
  {
    var kept := if n.id == id then [] else [n];
    assert WithoutId([n], id) == kept by {
      assert [n][1..] == [];
    }
    WithoutIdConcat(a + [n], b, id);
    WithoutIdConcat(a, [n], id);
  }

  /** Removing an id no record carries leaves the list unchanged. */
  lemma {:induction false} WithoutAbsentId(ns: seq<Notebook>, id: int)
    requires !HasId(ns, id)
    ensures WithoutId(ns, id) == ns
  {
    if ns != [] {
      assert !HasId(ns[1..], id) by {
        forall i | 0 <= i < |ns[1..]| ensures ns[1..][i].id != id {
          assert ns[1..][i] == ns[i + 1];
        }
      }
      WithoutAbsentId(ns[1..], id);
      assert ns == [ns[0]] + ns[1..];
    }
  }

  /** After a removal no record carries the removed id; other ids survive. */
  lemma WithoutIdIds(ns: seq<Notebook>, id: int, other: int)
    ensures !HasId(WithoutId(ns, id), id)
    ensures other != id ==> (HasId(WithoutId(ns, id), other) <==> HasId(ns, other))
  {
  }

  /** Removing the same id twice is the same as removing it once. */
  lemma WithoutIdIdempotent(ns: seq<Notebook>, id: int)
    ensures WithoutId(WithoutId(ns, id), id) == WithoutId(ns, id)
  {
    WithoutIdIds(ns, id, id);
    WithoutAbsentId(WithoutId(ns, id), id);
  }

  // ---- committing a draft ----

  /** Committing never adds, drops or reorders records, nor changes an id,
      a name or the inert fields. */
  lemma WithContentKeepsShape(ns: seq<Notebook>, id: int, text: string, other: int)
    ensures forall i :: 0 <= i < |ns| ==>
      var r := WithContent(ns, id, text)[i];
      r.id == ns[i].id && r.name == ns[i].name && r.isPrivate == ns[i].isPrivate && r.pin == ns[i].pin
    ensures HasId(WithContent(ns, id, text), other) <==> HasId(ns, other)
  {
  }

  /** Committing the same text twice gives the same list as committing it once. */
  lemma WithContentIdempotent(ns: seq<Notebook>, id: int, text: string)
    ensures WithContent(WithContent(ns, id, text), id, text) == WithContent(ns, id, text)
  {
  }

  /** Committing to an id no record carries changes nothing. */
  lemma WithContentAbsentId(ns: seq<Notebook>, id: int, text: string)
    requires !HasId(ns, id)
    ensures WithContent(ns, id, text) == ns
  {
  }

  /** Committing into the current list can never bring back a removed record. */
  lemma CommitAfterRemoval(ns: seq<Notebook>, removed: int, id: int, text: string)
    ensures !HasId(WithContent(WithoutId(ns, removed), id, text), removed)
  {
  }

  /** Ids are not unique: two notebooks added with the same clock reading
      share an id, and removing that id drops both of them. */
  lemma RemovalDropsEveryDuplicate(ns: seq<Notebook>, id: int)
    ensures WithoutId(Appended(Appended(ns, id), id), id) == WithoutId(ns, id)
  {
    WithoutIdConcat(ns + [NewNotebook(id)], [NewNotebook(id)], id);
    WithoutIdConcat(ns, [NewNotebook(id)], id);
    assert [NewNotebook(id)][1..] == [];
  }
}
