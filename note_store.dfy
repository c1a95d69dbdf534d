/**
 * The note collection store of the sticky-notes renderer: a sequence of note
 * records, the derived display order (starred first, each group newest first),
 * the mutating operations, the manual reorder that encodes the caller's order
 * into synthetic timestamps, the z-order formula and the last-opened lookup.
 *
 * The clock and the id generator are parameters (`now`, `freshId`); the
 * browser's key-value storage is the `storage` field of the store.
 */
module NoteStore {
  import opened Wrappers

  /** Colour token given to a note created without one. */
  const DefaultColor: string := "#fff7b1"

  /** z-order offset that lifts every starred note above the unstarred ones. */
  const StarredBase: int := 10000

  datatype Note = Note(
    id: string,
    title: string,
    content: string,
    color: string,
    path: Option<string>,     // None stands for `null`: no backing file
    createTime: int,
    lastModified: int,
    starred: bool)

  /** The keys an update object may carry; None means the key is absent. */
  datatype NoteUpdate = NoteUpdate(
    id: Option<string>,
    title: Option<string>,
    content: Option<string>,
    color: Option<string>,
    path: Option<Option<string>>,
    createTime: Option<int>,
    lastModified: Option<int>,
    starred: Option<bool>)

  /**
   * The two keys the store writes to the key-value storage: the serialised
   * collection and the last-opened id. A None is a key that was never set.
   */
  datatype Storage = Storage(notes: Option<seq<Note>>, lastOpenedNoteId: Option<string>)

  // ---------------------------------------------------------------------------
  // Filtering
  // ---------------------------------------------------------------------------

  /** The elements of `s` that satisfy `p`, in their order in `s`. */
  function Filter<T>(p: T -> bool, s: seq<T>): seq<T> {
    if s == [] then [] else (if p(s[0]) then [s[0]] else []) + Filter(p, s[1..])
  }

  /** What the filter keeps comes from `s` and satisfies `p`. */
  lemma {:induction false} FilterMembers<T>(p: T -> bool, s: seq<T>)
    ensures |Filter(p, s)| <= |s|
    ensures forall k :: 0 <= k < |Filter(p, s)| ==> Filter(p, s)[k] in s && p(Filter(p, s)[k])
  {
    if s != [] {
      FilterMembers(p, s[1..]);
      var r := Filter(p, s[1..]);
      assert forall k :: 0 <= k < |r| ==> r[k] in s;
    }
  }

  lemma {:induction false} FilterAppend<T>(p: T -> bool, a: seq<T>, b: seq<T>)
    ensures Filter(p, a + b) == Filter(p, a) + Filter(p, b)
  {
    if a == [] {
      assert a + b == b;
    } else {
      var h := if p(a[0]) then [a[0]] else [];
      assert (a + b)[0] == a[0];
      assert (a + b)[1..] == a[1..] + b;
      FilterAppend(p, a[1..], b);
      assert h + (Filter(p, a[1..]) + Filter(p, b)) == (h + Filter(p, a[1..])) + Filter(p, b);
    }
  }

  /** Every element of `s` that satisfies `p` is kept. */
  lemma {:induction false} FilterComplete<T>(p: T -> bool, s: seq<T>)
    ensures forall x :: x in s && p(x) ==> x in Filter(p, s)
  {
    if s != [] {
      FilterComplete(p, s[1..]);
      assert s == [s[0]] + s[1..];
    }
  }

  lemma FilterCons<T>(p: T -> bool, x: T, s: seq<T>)
    ensures Filter(p, [x] + s) == (if p(x) then [x] else []) + Filter(p, s)
  {
    assert ([x] + s)[1..] == s;
  }

  lemma {:induction false} FilterAllPass<T>(p: T -> bool, s: seq<T>)
    requires forall i :: 0 <= i < |s| ==> p(s[i])
    ensures Filter(p, s) == s
  {
    if s != [] {
      FilterAllPass(p, s[1..]);
    }
  }

  lemma {:induction false} FilterNonePass<T>(p: T -> bool, s: seq<T>)
    requires forall i :: 0 <= i < |s| ==> !p(s[i])
    ensures Filter(p, s) == []
  {
    if s != [] {
      FilterNonePass(p, s[1..]);
    }
  }

  /** Filtering by `p` and by its negation splits `s` without losing or adding anything. */
  lemma {:induction false} FilterSplit<T>(p: T -> bool, q: T -> bool, s: seq<T>)
    requires forall x :: q(x) == !p(x)
    ensures multiset(Filter(p, s)) + multiset(Filter(q, s)) == multiset(s)
    ensures |Filter(p, s)| + |Filter(q, s)| == |s|
  {
    if s != [] {
      FilterSplit(p, q, s[1..]);
      assert s == [s[0]] + s[1..];
    }
  }

  predicate IsStarred(n: Note) { n.starred }
  predicate IsUnstarred(n: Note) { !n.starred }

  function Starred(s: seq<Note>): seq<Note> { Filter(IsStarred, s) }
  function Unstarred(s: seq<Note>): seq<Note> { Filter(IsUnstarred, s) }

  /** The starred notes of `s` followed by its unstarred notes, each group in the order of `s`. */
  function Partitioned(s: seq<Note>): seq<Note> { Starred(s) + Unstarred(s) }

  lemma PartitionedPermutes(s: seq<Note>)
    ensures multiset(Partitioned(s)) == multiset(s)
    ensures |Partitioned(s)| == |s|
  {
    FilterSplit(IsStarred, IsUnstarred, s);
  }

  // ---------------------------------------------------------------------------
  // Sorting by descending lastModified
  // ---------------------------------------------------------------------------

  /** Every note is at least as recent as every note after it. */
  predicate NewestFirst(s: seq<Note>) {
    forall i, j :: 0 <= i < j < |s| ==> s[i].lastModified >= s[j].lastModified
  }

  /** No note is more recent than `v`. */
  predicate AllAtMost(s: seq<Note>, v: int) {
    forall k :: 0 <= k < |s| ==> s[k].lastModified <= v
  }

  /**
   * Inserts `x` in front of the first note that is not more recent than it.
   * On a tie `x` goes first, which keeps the sort below stable.
   */
  function Insert(x: Note, s: seq<Note>): seq<Note> {
    if s == [] || x.lastModified >= s[0].lastModified then [x] + s
    else [s[0]] + Insert(x, s[1..])
  }

  /**
   * Stable sort by descending lastModified: the comparator
   * `(a, b) => b.lastModified - a.lastModified` under a stable Array sort.
   */
  function SortByTime(s: seq<Note>): seq<Note> {
    if s == [] then [] else Insert(s[0], SortByTime(s[1..]))
  }

  lemma {:induction false} InsertPermutes(x: Note, s: seq<Note>)
    ensures multiset(Insert(x, s)) == multiset{x} + multiset(s)
    ensures |Insert(x, s)| == |s| + 1
  {
    if s != [] && x.lastModified < s[0].lastModified {
      InsertPermutes(x, s[1..]);
      assert s == [s[0]] + s[1..];
    }
  }

  lemma {:induction false} InsertBounded(x: Note, s: seq<Note>, v: int)
    requires x.lastModified <= v && AllAtMost(s, v)
    ensures AllAtMost(Insert(x, s), v)
  {
    if s != [] && x.lastModified < s[0].lastModified {
      InsertBounded(x, s[1..], v);
    }
  }

  lemma {:induction false} InsertSorted(x: Note, s: seq<Note>)
    requires NewestFirst(s)
    ensures NewestFirst(Insert(x, s))
  {
    if s != [] && x.lastModified < s[0].lastModified {
      InsertSorted(x, s[1..]);
      InsertBounded(x, s[1..], s[0].lastModified);
    }
  }

  /** The sort is a permutation and its result is newest first. */
  lemma {:induction false} SortOrders(s: seq<Note>)
    ensures multiset(SortByTime(s)) == multiset(s)
    ensures |SortByTime(s)| == |s|
    ensures NewestFirst(SortByTime(s))
  {
    if s != [] {
      SortOrders(s[1..]);
      InsertPermutes(s[0], SortByTime(s[1..]));
      InsertSorted(s[0], SortByTime(s[1..]));
      assert s == [s[0]] + s[1..];
    }
  }

  /** A flag that every note of `s` has, every note of its sorted form has. */
  lemma SortKeepsFlag(p: Note -> bool, s: seq<Note>)
    requires forall k :: 0 <= k < |s| ==> p(s[k])
    ensures forall k :: 0 <= k < |SortByTime(s)| ==> p(SortByTime(s)[k])
  {
    SortOrders(s);
    forall k | 0 <= k < |SortByTime(s)| ensures p(SortByTime(s)[k]) {
      assert SortByTime(s)[k] in multiset(s);
    }
  }

  /** A list that is already newest first is left as it is. */
  lemma {:induction false} SortKeepsSorted(s: seq<Note>)
    requires NewestFirst(s)
    ensures SortByTime(s) == s
  {
    if s != [] {
      SortKeepsSorted(s[1..]);
    }
  }

  /** `p` only selects notes that carry one and the same timestamp. */
  ghost predicate Tied(p: Note -> bool) {
    forall a, b :: p(a) && p(b) ==> a.lastModified == b.lastModified
  }

  lemma {:induction false} InsertStable(p: Note -> bool, x: Note, s: seq<Note>)
    requires Tied(p)
    ensures Filter(p, Insert(x, s)) == Filter(p, [x] + s)
  {
    if s != [] && x.lastModified < s[0].lastModified {
      var t := Insert(x, s[1..]);
      assert Insert(x, s) == [s[0]] + t;
      InsertStable(p, x, s[1..]);
      FilterCons(p, s[0], t);
      FilterCons(p, x, s[1..]);
      FilterCons(p, x, s);
      FilterCons(p, s[0], s[1..]);
      assert s == [s[0]] + s[1..];
      assert !(p(x) && p(s[0]));
    }
  }

  /**
   * Stability: notes that all carry the same timestamp keep their relative
   * order. `p` selects any set of mutually tied notes.
   */
  lemma {:induction false} SortStable(p: Note -> bool, s: seq<Note>)
    requires Tied(p)
    ensures Filter(p, SortByTime(s)) == Filter(p, s)
  {
    if s != [] {
      SortStable(p, s[1..]);
      InsertStable(p, s[0], SortByTime(s[1..]));
      FilterCons(p, s[0], SortByTime(s[1..]));
      FilterCons(p, s[0], s[1..]);
      assert s == [s[0]] + s[1..];
    }
  }

  // ---------------------------------------------------------------------------
  // The derived display order
  // ---------------------------------------------------------------------------

  /** Starred notes first, then unstarred ones, each group newest first. */
  function SortedNotes(notes: seq<Note>): seq<Note> {
    SortByTime(Starred(notes)) + SortByTime(Unstarred(notes))
  }

  /** No unstarred note comes before a starred one. */
  predicate StarredFirst(s: seq<Note>) {
    forall i, j :: 0 <= i < j < |s| && s[j].starred ==> s[i].starred
  }

  /** Within each of the two groups, newest first. */
  predicate GroupsNewestFirst(s: seq<Note>) {
    forall i, j :: 0 <= i < j < |s| && s[i].starred == s[j].starred ==>
      s[i].lastModified >= s[j].lastModified
  }

  /** Starred notes followed by unstarred ones, each newest first, are in display order. */
  lemma ConcatGroups(a: seq<Note>, b: seq<Note>)
    requires forall k :: 0 <= k < |a| ==> a[k].starred
    requires forall k :: 0 <= k < |b| ==> !b[k].starred
    requires NewestFirst(a) && NewestFirst(b)
    ensures StarredFirst(a + b)
    ensures GroupsNewestFirst(a + b)
  {
    var r := a + b;
    forall i, j | 0 <= i < j < |r| && r[i].starred == r[j].starred
      ensures r[i].lastModified >= r[j].lastModified
    {
      if j < |a| {
        assert r[i] == a[i] && r[j] == a[j];
      } else if i >= |a| {
        assert r[i] == b[i - |a|] && r[j] == b[j - |a|];
      }
    }
  }

  /** The display order is a permutation of the collection, starred first, each group newest first. */
  lemma SortedNotesOrder(notes: seq<Note>)
    ensures multiset(SortedNotes(notes)) == multiset(notes)
    ensures |SortedNotes(notes)| == |notes|
    ensures StarredFirst(SortedNotes(notes))
    ensures GroupsNewestFirst(SortedNotes(notes))
  {
    PartitionedPermutes(notes);
    SortOrders(Starred(notes));
    SortOrders(Unstarred(notes));
    FilterMembers(IsStarred, notes);
    FilterMembers(IsUnstarred, notes);
    SortKeepsFlag(IsStarred, Starred(notes));
    SortKeepsFlag(IsUnstarred, Unstarred(notes));
    ConcatGroups(SortByTime(Starred(notes)), SortByTime(Unstarred(notes)));
  }

  /**
   * The first note shown: a starred note if there is one, and the most
   * recent one of its group.
   */
  lemma DisplayHead(notes: seq<Note>)
    requires notes != []
    ensures SortedNotes(notes) != []
    ensures SortedNotes(notes)[0] in notes
    ensures (exists n :: n in notes && n.starred) ==> SortedNotes(notes)[0].starred
    ensures forall n :: n in notes && n.starred == SortedNotes(notes)[0].starred ==>
              SortedNotes(notes)[0].lastModified >= n.lastModified
  {
    SortedNotesOrder(notes);
    var r := SortedNotes(notes);
    assert r[0] in multiset(notes);
    forall n | n in notes
      ensures n.starred ==> r[0].starred
      ensures n.starred == r[0].starred ==> r[0].lastModified >= n.lastModified
    {
      assert n in multiset(r);
      var k :| 0 <= k < |r| && r[k] == n;
      if k > 0 {
        assert r[k].starred ==> r[0].starred;
      }
    }
  }

  /** Splitting the display order into its starred and unstarred notes again changes nothing. */
  lemma SortedNotesIsStarredFirst(notes: seq<Note>)
    ensures Partitioned(SortedNotes(notes)) == SortedNotes(notes)
  {
    SortedNotesOrder(notes);
    PartitionedOfStarredFirst(SortedNotes(notes));
  }

  /** Starred notes newest first, then unstarred notes newest first, are their own display order. */
  lemma DisplayOrderFixed(a: seq<Note>, b: seq<Note>)
    requires forall k :: 0 <= k < |a| ==> a[k].starred
    requires forall k :: 0 <= k < |b| ==> !b[k].starred
    requires NewestFirst(a) && NewestFirst(b)
    ensures SortedNotes(a + b) == a + b
  {
    FilterAppend(IsStarred, a, b);
    FilterAppend(IsUnstarred, a, b);
    FilterAllPass(IsStarred, a);
    FilterNonePass(IsStarred, b);
    FilterNonePass(IsUnstarred, a);
    FilterAllPass(IsUnstarred, b);
    assert Starred(a + b) == a;
    assert Unstarred(a + b) == b;
    SortKeepsSorted(a);
    SortKeepsSorted(b);
  }

  /** Computing the display order of the display order gives it back unchanged. */
  lemma SortedNotesIdempotent(notes: seq<Note>)
    ensures SortedNotes(SortedNotes(notes)) == SortedNotes(notes)
  {
    FilterMembers(IsStarred, notes);
    FilterMembers(IsUnstarred, notes);
    SortKeepsFlag(IsStarred, Starred(notes));
    SortKeepsFlag(IsUnstarred, Unstarred(notes));
    SortOrders(Starred(notes));
    SortOrders(Unstarred(notes));
    DisplayOrderFixed(SortByTime(Starred(notes)), SortByTime(Unstarred(notes)));
  }

  /** Partitioning a list that is already starred first changes nothing. */
  lemma {:induction false} PartitionedOfStarredFirst(s: seq<Note>)
    requires StarredFirst(s)
    ensures Partitioned(s) == s
  {
    if s != [] {
      if s[0].starred {
        assert StarredFirst(s[1..]) by {
          forall i, j | 0 <= i < j < |s[1..]| && s[1..][j].starred ensures s[1..][i].starred {
            assert s[1..][i] == s[i + 1] && s[1..][j] == s[j + 1];
          }
        }
        var t := s[1..];
        PartitionedOfStarredFirst(t);
        assert s == [s[0]] + t;
        FilterCons(IsStarred, s[0], t);
        FilterCons(IsUnstarred, s[0], t);
        assert Starred(s) + Unstarred(s) == [s[0]] + (Starred(t) + Unstarred(t));
      } else {
        assert forall i :: 0 <= i < |s| ==> !s[i].starred;
        FilterNonePass(IsStarred, s);
        FilterAllPass(IsUnstarred, s);
      }
    }
  }

  // ---------------------------------------------------------------------------
  // Lookup by id and the single-note updates
  // ---------------------------------------------------------------------------

  /** The index of the first note with this id (Array.prototype.findIndex / find). */
  function FindIndex(s: seq<Note>, id: string): (r: Option<nat>)
    ensures r.Some? ==> r.value < |s| && s[r.value].id == id &&
                        forall j :: 0 <= j < r.value ==> s[j].id != id
    ensures r.None? ==> forall j :: 0 <= j < |s| ==> s[j].id != id
  {
    if s == [] then None
    else if s[0].id == id then Some(0)
    else match FindIndex(s[1..], id)
      case None => None
      case Some(k) => Some(k + 1)
  }

  /** Two collections with the same ids at the same places find the same index. */
  lemma {:induction false} FindIndexByIds(s: seq<Note>, t: seq<Note>, id: string)
    requires |s| == |t| && forall j :: 0 <= j < |s| ==> s[j].id == t[j].id
    ensures FindIndex(s, id) == FindIndex(t, id)
  {
    if s != [] {
      FindIndexByIds(s[1..], t[1..], id);
    }
  }

  predicate HasId(s: seq<Note>, id: string) {
    exists j :: 0 <= j < |s| && s[j].id == id
  }

  /** The note `n` with the keys of `u` spread over it and `lastModified` set to `now`. */
  function Merge(n: Note, u: NoteUpdate, now: int): Note {
    Note(
      u.id.GetOr(n.id),
      u.title.GetOr(n.title),
      u.content.GetOr(n.content),
      u.color.GetOr(n.color),
      u.path.GetOr(n.path),
      u.createTime.GetOr(n.createTime),
      now,
      u.starred.GetOr(n.starred))
  }

  /** The collection after updateNote(id, u): the first match replaced by its merge, in place. */
  function Updated(s: seq<Note>, id: string, u: NoteUpdate, now: int): seq<Note> {
    match FindIndex(s, id)
    case None => s
    case Some(i) => s[i := Merge(s[i], u, now)]
  }

  /** updateNote on an id that is not present leaves the collection identical. */
  lemma UpdateAbsent(s: seq<Note>, id: string, u: NoteUpdate, now: int)
    requires !HasId(s, id)
    ensures Updated(s, id, u, now) == s
  {
  }

  /**
   * updateNote on a present id: same length, every other note unchanged, and at
   * the first match every field is the update's value if it carries one and the
   * old value otherwise, except lastModified, which is `now` whatever the update says.
   */
  lemma UpdatePresent(s: seq<Note>, id: string, u: NoteUpdate, now: int, i: nat)
    requires i < |s| && s[i].id == id && forall j :: 0 <= j < i ==> s[j].id != id
    ensures |Updated(s, id, u, now)| == |s|
    ensures forall j :: 0 <= j < |s| && j != i ==> Updated(s, id, u, now)[j] == s[j]
    ensures Updated(s, id, u, now)[i].lastModified == now
    ensures Updated(s, id, u, now)[i].id == (if u.id.Some? then u.id.value else id)
    ensures Updated(s, id, u, now)[i].title == (if u.title.Some? then u.title.value else s[i].title)
    ensures Updated(s, id, u, now)[i].content == (if u.content.Some? then u.content.value else s[i].content)
    ensures Updated(s, id, u, now)[i].color == (if u.color.Some? then u.color.value else s[i].color)
    ensures Updated(s, id, u, now)[i].path == (if u.path.Some? then u.path.value else s[i].path)
    ensures Updated(s, id, u, now)[i].createTime == (if u.createTime.Some? then u.createTime.value else s[i].createTime)
    ensures Updated(s, id, u, now)[i].starred == (if u.starred.Some? then u.starred.value else s[i].starred)
  {
    var f := FindIndex(s, id);
    assert f == Some(i) by {
      if f.Some? {
        assert !(f.value < i) && !(i < f.value);
      }
    }
  }

  /** The collection after toggleStar(id): the first match flipped and stamped with `now`. */
  function Toggled(s: seq<Note>, id: string, now: int): seq<Note> {
    match FindIndex(s, id)
    case None => s
    case Some(i) => s[i := s[i].(starred := !s[i].starred, lastModified := now)]
  }

  /** Toggling twice restores every starred flag; only the note's lastModified has moved. */
  lemma ToggleTwice(s: seq<Note>, id: string, t1: int, t2: int)
    ensures !HasId(s, id) ==> Toggled(Toggled(s, id, t1), id, t2) == s
    ensures HasId(s, id) ==>
      var i := FindIndex(s, id).value;
      Toggled(Toggled(s, id, t1), id, t2) == s[i := s[i].(lastModified := t2)]
  {
    var once := Toggled(s, id, t1);
    FindIndexByIds(s, once, id);
  }

  /** The filter condition of deleteNote: the note has another id. */
  function OtherId(id: string): Note -> bool {
    (n: Note) => n.id != id
  }

  /** The collection after deleteNote(id): every note with that id removed, the rest in order. */
  function Without(s: seq<Note>, id: string): seq<Note> {
    Filter(OtherId(id), s)
  }

  /** deleteNote keeps exactly the notes whose id differs. */
  lemma WithoutMembers(s: seq<Note>, id: string)
    ensures |Without(s, id)| <= |s|
    ensures forall n :: n in Without(s, id) ==> n in s && n.id != id
    ensures forall n :: n in s && n.id != id ==> n in Without(s, id)
  {
    FilterMembers(OtherId(id), s);
    FilterComplete(OtherId(id), s);
  }

  /** Deleting distributes over concatenation, so the survivors keep their relative order. */
  lemma WithoutAppend(a: seq<Note>, b: seq<Note>, id: string)
    ensures Without(a + b, id) == Without(a, id) + Without(b, id)
  {
    FilterAppend(OtherId(id), a, b);
  }

  /** Deleting an id that is not present leaves the collection identical. */
  lemma WithoutAbsent(s: seq<Note>, id: string)
    requires !HasId(s, id)
    ensures Without(s, id) == s
  {
    assert forall j :: 0 <= j < |s| ==> OtherId(id)(s[j]);
    FilterAllPass(OtherId(id), s);
  }

  // ---------------------------------------------------------------------------
  // Unique ids
  // ---------------------------------------------------------------------------

  predicate UniqueIds(s: seq<Note>) {
    forall i, j :: 0 <= i < j < |s| ==> s[i].id != s[j].id
  }

  lemma {:induction false} WithoutKeepsUnique(s: seq<Note>, id: string)
    requires UniqueIds(s)
    ensures UniqueIds(Without(s, id))
  {
    if s != [] {
      assert UniqueIds(s[1..]) by {
        forall i, j | 0 <= i < j < |s[1..]| ensures s[1..][i].id != s[1..][j].id {
          assert s[1..][i] == s[i + 1] && s[1..][j] == s[j + 1];
        }
      }
      WithoutKeepsUnique(s[1..], id);
      WithoutMembers(s[1..], id);
      var rest := Without(s[1..], id);
      forall k | 0 <= k < |rest| ensures rest[k].id != s[0].id {
        assert rest[k] in s[1..];
        var m :| 0 <= m < |s[1..]| && s[1..][m] == rest[k];
        assert s[m + 1] == rest[k];
      }
    }
  }

  /** Unique ids make every note occur at most once. */
  lemma {:induction false} UniqueIdsSingleCopies(s: seq<Note>)
    requires UniqueIds(s)
    ensures forall x :: multiset(s)[x] <= 1
  {
    if s != [] {
      var t := s[1..];
      assert UniqueIds(t) by {
        forall i, j | 0 <= i < j < |t| ensures t[i].id != t[j].id {
          assert t[i] == s[i + 1] && t[j] == s[j + 1];
        }
      }
      UniqueIdsSingleCopies(t);
      assert s == [s[0]] + t;
      assert s[0] !in t by {
        assert forall k :: 0 <= k < |t| ==> t[k] == s[k + 1] && t[k].id != s[0].id;
      }
    }
  }

  /** In a list where every note occurs at most once, two positions hold two different notes. */
  lemma SingleCopiesDistinct(s: seq<Note>, i: nat, j: nat)
    requires forall x :: multiset(s)[x] <= 1
    requires i < j < |s|
    ensures s[i] != s[j]
  {
    assert s == s[..j] + s[j..];
    assert multiset(s) == multiset(s[..j]) + multiset(s[j..]);
    assert s[i] in s[..j];
    assert multiset(s[..j])[s[i]] >= 1;
    assert multiset(s)[s[i]] <= 1;
    assert multiset(s[j..])[s[i]] == 0;
    assert s[j] in s[j..];
  }

  /** A permutation of a list with unique ids has unique ids. */
  lemma UniqueIdsPermutation(a: seq<Note>, b: seq<Note>)
    requires UniqueIds(a) && multiset(a) == multiset(b)
    ensures UniqueIds(b)
  {
    UniqueIdsSingleCopies(a);
    forall i, j | 0 <= i < j < |b| ensures b[i].id != b[j].id {
      SingleCopiesDistinct(b, i, j);
      assert b[i] in multiset(a) && b[j] in multiset(a);
      var p :| 0 <= p < |a| && a[p] == b[i];
      var q :| 0 <= q < |a| && a[q] == b[j];
      assert p != q;
    }
  }

  /** The display order keeps the collection's ids unique. */
  lemma SortedNotesKeepsUnique(notes: seq<Note>)
    requires UniqueIds(notes)
    ensures UniqueIds(SortedNotes(notes))
  {
    SortedNotesOrder(notes);
    UniqueIdsPermutation(notes, SortedNotes(notes));
  }

  // ---------------------------------------------------------------------------
  // Manual reorder
  // ---------------------------------------------------------------------------

  /** `s` with the note at position i stamped `now - (offset + i)`. */
  function Stamp(s: seq<Note>, now: int, offset: int): seq<Note> {
    seq(|s|, i requires 0 <= i < |s| => s[i].(lastModified := now - (offset + i)))
  }

  /**
   * The collection after reorderNotes(newOrder) with a single clock reading
   * `now`: the starred notes of newOrder, then its unstarred ones, stamped with
   * strictly decreasing timestamps.
   */
  function Reordered(newOrder: seq<Note>, now: int): seq<Note> {
    Stamp(Starred(newOrder), now, 0) + Stamp(Unstarred(newOrder), now, |Starred(newOrder)|)
  }

  /**
   * The reordered collection holds exactly the notes of newOrder, partitioned
   * starred first with each group in the caller's order, the note at position i
   * stamped `now - i`; the stamps strictly decrease.
   */
  lemma ReorderedContents(newOrder: seq<Note>, now: int)
    ensures |Reordered(newOrder, now)| == |newOrder|
    ensures multiset(Partitioned(newOrder)) == multiset(newOrder)
    ensures forall i :: 0 <= i < |newOrder| ==>
      Reordered(newOrder, now)[i] == Partitioned(newOrder)[i].(lastModified := now - i)
    ensures forall i, j :: 0 <= i < j < |newOrder| ==>
      Reordered(newOrder, now)[i].lastModified > Reordered(newOrder, now)[j].lastModified
  {
    PartitionedPermutes(newOrder);
    var k := |Starred(newOrder)|;
    var r, p := Reordered(newOrder, now), Partitioned(newOrder);
    forall i | 0 <= i < |newOrder| ensures r[i] == p[i].(lastModified := now - i) {
      if i < k {
        assert p[i] == Starred(newOrder)[i];
      } else {
        assert p[i] == Unstarred(newOrder)[i - k];
      }
    }
  }

  /** Reordering a list with unique ids gives a collection with unique ids. */
  lemma ReorderedKeepsUnique(newOrder: seq<Note>, now: int)
    requires UniqueIds(newOrder)
    ensures UniqueIds(Reordered(newOrder, now))
  {
    ReorderedContents(newOrder, now);
    UniqueIdsPermutation(newOrder, Partitioned(newOrder));
    var r, p := Reordered(newOrder, now), Partitioned(newOrder);
    assert forall i :: 0 <= i < |r| ==> r[i].id == p[i].id;
  }

  /** Filtering a stamped list by starredness is stamping the filtered list. */
  lemma StampedGroups(s: seq<Note>, now: int, offset: int)
    requires forall i :: 0 <= i < |s| ==> s[i].starred
    ensures Starred(Stamp(s, now, offset)) == Stamp(s, now, offset)
    ensures Unstarred(Stamp(s, now, offset)) == []
  {
    FilterAllPass(IsStarred, Stamp(s, now, offset));
    FilterNonePass(IsUnstarred, Stamp(s, now, offset));
  }

  lemma StampedGroupsUnstarred(s: seq<Note>, now: int, offset: int)
    requires forall i :: 0 <= i < |s| ==> !s[i].starred
    ensures Starred(Stamp(s, now, offset)) == []
    ensures Unstarred(Stamp(s, now, offset)) == Stamp(s, now, offset)
  {
    FilterNonePass(IsStarred, Stamp(s, now, offset));
    FilterAllPass(IsUnstarred, Stamp(s, now, offset));
  }

  /**
   * The reorder theorem: the display order of the reordered collection is the
   * reordered collection itself, so it reproduces the caller's order (starred
   * notes first) and each note sits at its position stamped `now - i`.
   */
  lemma ReorderThenDisplay(newOrder: seq<Note>, now: int)
    ensures |Reordered(newOrder, now)| == |newOrder|
    ensures SortedNotes(Reordered(newOrder, now)) == Reordered(newOrder, now)
    ensures forall i :: 0 <= i < |newOrder| ==>
      SortedNotes(Reordered(newOrder, now))[i] == Partitioned(newOrder)[i].(lastModified := now - i)
  {
    var k := |Starred(newOrder)|;
    var a, b := Stamp(Starred(newOrder), now, 0), Stamp(Unstarred(newOrder), now, k);
    FilterMembers(IsStarred, newOrder);
    FilterMembers(IsUnstarred, newOrder);
    StampedGroups(Starred(newOrder), now, 0);
    StampedGroupsUnstarred(Unstarred(newOrder), now, k);
    FilterAppend(IsStarred, a, b);
    FilterAppend(IsUnstarred, a, b);
    assert Starred(a + b) == a;
    assert Unstarred(a + b) == b;
    SortKeepsSorted(a);
    SortKeepsSorted(b);
    ReorderedContents(newOrder, now);
  }

  /** Reordering by a list that is already starred first reproduces that list exactly. */
  lemma ReorderStarredFirst(newOrder: seq<Note>, now: int)
    requires StarredFirst(newOrder)
    ensures |SortedNotes(Reordered(newOrder, now))| == |newOrder|
    ensures forall i :: 0 <= i < |newOrder| ==>
      SortedNotes(Reordered(newOrder, now))[i] == newOrder[i].(lastModified := now - i)
  {
    ReorderThenDisplay(newOrder, now);
    ReorderedContents(newOrder, now);
    PartitionedOfStarredFirst(newOrder);
  }

  /** Reordering by the current display order leaves the display order unchanged, up to the new stamps. */
  lemma ReorderByDisplayIdempotent(notes: seq<Note>, now: int)
    ensures |SortedNotes(notes)| == |notes|
    ensures |SortedNotes(Reordered(SortedNotes(notes), now))| == |notes|
    ensures forall i :: 0 <= i < |notes| ==>
      SortedNotes(Reordered(SortedNotes(notes), now))[i] == SortedNotes(notes)[i].(lastModified := now - i)
  {
    SortedNotesOrder(notes);
    ReorderStarredFirst(SortedNotes(notes), now);
  }

  /**
   * reorderNotes as written reads the clock once per note: `clock[i]` is the
   * reading taken while stamping the note that ends up at position i.
   */
  function ReorderedAsWritten(newOrder: seq<Note>, clock: seq<int>): seq<Note>
    requires |clock| == |newOrder|
  {
    var k := |Starred(newOrder)|;
    PartitionedPermutes(newOrder);
    ClockStamp(Starred(newOrder), clock[..k], 0) + ClockStamp(Unstarred(newOrder), clock[k..], k)
  }

  /** `s` with the note at position i stamped `clock[i] - (offset + i)`. */
  function ClockStamp(s: seq<Note>, clock: seq<int>, offset: int): seq<Note>
    requires |clock| == |s|
  {
    seq(|s|, i requires 0 <= i < |s| => s[i].(lastModified := clock[i] - (offset + i)))
  }

  /** With one reading for the whole call the as-written reorder is the single-`now` one. */
  lemma ReorderedAsWrittenSteadyClock(newOrder: seq<Note>, clock: seq<int>, now: int)
    requires |clock| == |newOrder|
    requires forall i :: 0 <= i < |clock| ==> clock[i] == now
    ensures ReorderedAsWritten(newOrder, clock) == Reordered(newOrder, now)
  {
    ReorderedContents(newOrder, now);
  }

  /**
   * If the clock advances by 2 ms between the two stamps, two unstarred notes
   * given as [a, b] are displayed as [b, a].
   */
  lemma ClockDriftBreaksReorder(a: Note, b: Note)
    requires !a.starred && !b.starred
    ensures SortedNotes(ReorderedAsWritten([a, b], [100, 102])) ==
            [b.(lastModified := 101), a.(lastModified := 100)]
  {
    var p := [a, b];
    assert Starred(p) == [] by {
      FilterNonePass(IsStarred, p);
    }
    assert Unstarred(p) == p by {
      FilterAllPass(IsUnstarred, p);
    }
    var r := ReorderedAsWritten(p, [100, 102]);
    var a', b' := a.(lastModified := 100), b.(lastModified := 101);
    assert r == [a', b'];
    FilterNonePass(IsStarred, r);
    assert SortByTime([b']) == [b'] by {
      assert Insert(b', []) == [b'];
    }
    assert SortByTime(r) == Insert(a', [b']) by {
      assert r[1..] == [b'];
    }
    assert Insert(a', [b']) == [b', a'] by {
      assert Insert(a', []) == [a'];
    }
    FilterAllPass(IsUnstarred, r);
  }

  // ---------------------------------------------------------------------------
  // z-order and last-opened lookup
  // ---------------------------------------------------------------------------

  /** calculateZOrder: starred notes are lifted by 10000. */
  function ZOrder(index: int, isStarred: bool): (z: int)
    ensures 0 <= index < StarredBase ==> (isStarred <==> z >= StarredBase)
    ensures 0 <= index < StarredBase ==> z % StarredBase == index
  {
    (if isStarred then StarredBase else 0) + index
  }

  /** Below 10000 notes, every starred note's z-order exceeds every unstarred one's. */
  lemma StarredAboveUnstarred(i: int, j: int)
    requires 0 <= i && 0 <= j < StarredBase
    ensures ZOrder(i, true) > ZOrder(j, false)
  {
  }

  /** Below 10000 notes, distinct (index, starred) pairs get distinct z-orders. */
  lemma ZOrderInjective(i: int, a: bool, j: int, b: bool)
    requires 0 <= i < StarredBase && 0 <= j < StarredBase
    requires ZOrder(i, a) == ZOrder(j, b)
    ensures i == j && a == b
  {
  }

  /** A stored id counts only when it is a non-empty string (JavaScript truthiness). */
  predicate Present(id: Option<string>) {
    id.Some? && id.value != ""
  }

  /**
   * getLastOpenedNote: the first note with the stored id if there is one,
   * otherwise the head of the display order, and nothing for an empty collection.
   */
  function LastOpened(storedId: Option<string>, notes: seq<Note>): (r: Option<Note>)
    ensures r.None? <==> notes == []
    ensures r.Some? ==> r.value in notes
    ensures Present(storedId) && HasId(notes, storedId.value) ==>
      r.Some? && r.value.id == storedId.value &&
      r.value == notes[FindIndex(notes, storedId.value).value]
    ensures !(Present(storedId) && HasId(notes, storedId.value)) && notes != [] ==>
      r == Some(SortedNotes(notes)[0])
  {
    if Present(storedId) && FindIndex(notes, storedId.value).Some? then
      Some(notes[FindIndex(notes, storedId.value).value])
    else if notes == [] then
      None
    else
      DisplayHead(notes);
      Some(SortedNotes(notes)[0])
  }

  // ---------------------------------------------------------------------------
  // Persistence
  // ---------------------------------------------------------------------------

  /** saveToStorage: the collection is always written, the last-opened id only when present. */
  function Persisted(st: Storage, notes: seq<Note>, lastOpened: Option<string>): Storage {
    Storage(Some(notes), if Present(lastOpened) then lastOpened else st.lastOpenedNoteId)
  }

  /** loadFromStorage: the stored collection if the key is set, otherwise `current`. */
  function LoadedNotes(st: Storage, current: seq<Note>): seq<Note> {
    st.notes.GetOr(current)
  }

  /** loadFromStorage: the stored id if it is present, otherwise `current`. */
  function LoadedLastOpened(st: Storage, current: Option<string>): Option<string> {
    if Present(st.lastOpenedNoteId) then st.lastOpenedNoteId else current
  }

  /** Loading what was just saved gives back the collection and a present last-opened id. */
  lemma LoadAfterSave(st: Storage, notes: seq<Note>, lastOpened: Option<string>, anyNotes: seq<Note>)
    ensures LoadedNotes(Persisted(st, notes, lastOpened), anyNotes) == notes
    ensures Present(lastOpened) ==>
      LoadedLastOpened(Persisted(st, notes, lastOpened), None) == lastOpened
    ensures !Present(lastOpened) ==>
      LoadedLastOpened(Persisted(st, notes, lastOpened), None) == LoadedLastOpened(st, None)
  {
  }

  // ---------------------------------------------------------------------------
  // The store
  // ---------------------------------------------------------------------------

  class Store {
    var notes: seq<Note>
    var lastOpenedNoteId: Option<string>
    /** The key-value storage the store persists to. */
    var storage: Storage

    /** Module initialisation: empty state, then loadFromStorage. */
    constructor (stored: Storage)
      ensures storage == stored
      ensures notes == LoadedNotes(stored, [])
      ensures lastOpenedNoteId == LoadedLastOpened(stored, None)
    {
      notes := [];
      lastOpenedNoteId := None;
      storage := stored;
      new;
      LoadFromStorage();
    }

    /** loadFromStorage: overwrites whatever the storage holds a value for. */
    method LoadFromStorage()
      modifies this`notes, this`lastOpenedNoteId
      ensures notes == LoadedNotes(storage, old(notes))
      ensures lastOpenedNoteId == LoadedLastOpened(storage, old(lastOpenedNoteId))
    {
      if storage.notes.Some? {
        notes := storage.notes.value;
      }
      if Present(storage.lastOpenedNoteId) {
        lastOpenedNoteId := storage.lastOpenedNoteId;
      }
    }

    method SaveToStorage()
      modifies this`storage
      ensures storage == Persisted(old(storage), notes, lastOpenedNoteId)
    {
      storage := storage.(notes := Some(notes));
      if Present(lastOpenedNoteId) {
        storage := storage.(lastOpenedNoteId := lastOpenedNoteId);
      }
    }

    /**
     * createNote: appends one new, unstarred note. Absent content is '', absent
     * colour the default token; an absent or zero lastModified becomes `now`.
     */
    method CreateNote(freshId: string, title: string, content: Option<string>, color: Option<string>,
                      path: Option<string>, lastModified: Option<int>, now: int) returns (note: Note)
      requires !HasId(notes, freshId)
      modifies this`notes, this`storage
      ensures notes == old(notes) + [note]
      ensures note.id == freshId && note.title == title
      ensures note.content == content.GetOr("") && note.color == color.GetOr(DefaultColor)
      ensures note.path == path && note.createTime == now && !note.starred
      ensures note.lastModified == if lastModified.Some? && lastModified.value != 0 then lastModified.value else now
      ensures UniqueIds(old(notes)) ==> UniqueIds(notes)
      ensures storage == Persisted(old(storage), notes, lastOpenedNoteId)
    {
      var stamp := if lastModified.Some? && lastModified.value != 0 then lastModified.value else now;
      note := Note(freshId, title, content.GetOr(""), color.GetOr(DefaultColor), path, now, stamp, false);
      notes := notes + [note];
      SaveToStorage();
    }

    /** updateNote: a no-op (no write) for an absent id. */
    method UpdateNote(id: string, updates: NoteUpdate, now: int)
      modifies this`notes, this`storage
      ensures notes == Updated(old(notes), id, updates, now)
      ensures storage == if HasId(old(notes), id) then Persisted(old(storage), notes, lastOpenedNoteId) else old(storage)
      ensures UniqueIds(old(notes)) && (updates.id.None? || updates.id == Some(id)) ==> UniqueIds(notes)
    {
      var index := FindIndex(notes, id);
      if index.Some? {
        var i := index.value;
        notes := notes[..i] + [Merge(notes[i], updates, now)] + notes[i + 1..];
        assert notes == old(notes)[i := Merge(old(notes)[i], updates, now)];
        SaveToStorage();
      }
    }

    /** deleteNote: removes every match; the storage is written in any case. */
    method DeleteNote(id: string)
      modifies this`notes, this`storage
      ensures notes == Without(old(notes), id)
      ensures UniqueIds(old(notes)) ==> UniqueIds(notes)
      ensures storage == Persisted(old(storage), notes, lastOpenedNoteId)
    {
      if UniqueIds(notes) {
        WithoutKeepsUnique(notes, id);
      }
      notes := Without(notes, id);
      SaveToStorage();
    }

    /** reorderNotes with one clock reading `now` for the whole call. */
    method ReorderNotes(newOrder: seq<Note>, now: int)
      modifies this`notes, this`storage
      ensures notes == Reordered(newOrder, now)
      ensures SortedNotes(notes) == notes
      ensures UniqueIds(newOrder) ==> UniqueIds(notes)
      ensures storage == Persisted(old(storage), notes, lastOpenedNoteId)
    {
      ReorderThenDisplay(newOrder, now);
      if UniqueIds(newOrder) {
        ReorderedKeepsUnique(newOrder, now);
      }
      notes := Reordered(newOrder, now);
      SaveToStorage();
    }

    /** toggleStar: flips the first match in place; a no-op (no write) for an absent id. */
    method ToggleStar(id: string, now: int)
      modifies this`notes, this`storage
      ensures notes == Toggled(old(notes), id, now)
      ensures storage == if HasId(old(notes), id) then Persisted(old(storage), notes, lastOpenedNoteId) else old(storage)
      ensures UniqueIds(old(notes)) ==> UniqueIds(notes)
    {
      var index := FindIndex(notes, id);
      if index.Some? {
        var i := index.value;
        notes := notes[i := notes[i].(starred := !notes[i].starred, lastModified := now)];
        SaveToStorage();
      }
    }

    /** setLastOpenedNote: records the id and writes it, without checking that it exists. */
    method SetLastOpenedNote(id: string)
      modifies this`lastOpenedNoteId, this`storage
      ensures lastOpenedNoteId == Some(id)
      ensures storage == old(storage).(lastOpenedNoteId := Some(id))
    {
      lastOpenedNoteId := Some(id);
      storage := storage.(lastOpenedNoteId := Some(id));
    }

    /** getLastOpenedNote: looks up the id held by the storage, not the in-memory one. */
    method GetLastOpenedNote() returns (note: Option<Note>)
      ensures note == LastOpened(storage.lastOpenedNoteId, notes)
    {
      note := LastOpened(storage.lastOpenedNoteId, notes);
    }
  }
}
