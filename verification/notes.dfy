/** The note record, the identifiers of a collection of notes and the
    id-assignment rule of the note page (script.js). */
module Notes {
  import opened Filtering

  /** One study note. `date` is the `YYYY-MM-DD` text the page takes from
      the clock; the model receives it as an argument. */
  datatype Note = Note(id: nat, title: string, subject: string, content: string, date: string)

  function Ids(s: seq<Note>): set<nat>
  {
    set n | n in s :: n.id
  }

  /** No two notes of `s` share an id. */
  ghost predicate UniqueIds(s: seq<Note>)
  {
    forall i, j :: 0 <= i < j < |s| ==> s[i].id != s[j].id
  }

  /** `Math.max(...notes.map(n => n.id))` on a non-empty collection. */
  function MaxId(s: seq<Note>): (m: nat)
    requires s != []
    ensures m in Ids(s)
    ensures forall n :: n in s ==> n.id <= m
  {
    if |s| == 1 then s[0].id
    else
      var rest := MaxId(s[1..]);
      assert forall n :: n in s ==> n == s[0] || n in s[1..];
      assert rest in Ids(s) by {
        var w :| w in s[1..] && w.id == rest;
        assert w in s;
      }
      if s[0].id >= rest then s[0].id else rest
  }

  /** The id a newly created note receives: 1 on an empty collection,
      otherwise one more than the largest id present. */
  function NextId(s: seq<Note>): (id: nat)
    ensures id >= 1
    ensures s == [] ==> id == 1
    ensures forall n :: n in s ==> n.id < id
    ensures id !in Ids(s)
    ensures s != [] ==> id - 1 in Ids(s)
  {
    if s != [] then MaxId(s) + 1 else 1
  }

  /** `notes.filter(n => n.id !== id)`. */
  function WithoutId(s: seq<Note>, id: nat): (r: seq<Note>)
    ensures IsSubsequence(r, s)
    ensures forall n :: n in r <==> n in s && n.id != id
    ensures id !in Ids(r)
    ensures forall n :: multiset(r)[n] == if n.id == id then 0 else multiset(s)[n]
  {
    Keep(s, (n: Note) => n.id != id)
  }

  /** The first note of `s` with the given id sits at index `i`. */
  ghost predicate FirstWithId(s: seq<Note>, id: nat, i: int)
  {
    0 <= i < |s| && s[i].id == id && forall j :: 0 <= j < i ==> s[j].id != id
  }

  /** `notes.find(n => n.id === id)`. */
  function Find(s: seq<Note>, id: nat): (r: Option<Note>)
    ensures r.None? <==> id !in Ids(s)
    ensures r.Some? ==> exists i :: FirstWithId(s, id, i) && s[i] == r.value
  {
    if s == [] then None
    else if s[0].id == id then
      assert FirstWithId(s, id, 0);
      Some(s[0])
    else
      var r := Find(s[1..], id);
      assert forall n :: n in s ==> n == s[0] || n in s[1..];
      if r.Some? then
        assert exists i :: FirstWithId(s, id, i) && s[i] == r.value by {
          var i :| FirstWithId(s[1..], id, i) && s[1..][i] == r.value;
          assert FirstWithId(s, id, i + 1);
        }
        r
      else r
  }

  /** The collection the page starts with: three notes with the distinct
      ids 1, 2 and 3. */
  function SeedNotes(): (r: seq<Note>)
    ensures |r| == 3 && Ids(r) == {1, 2, 3} && UniqueIds(r)
  {
    var r :=
    [ Note(1, "Algebra Formulas", "Mathematics",
           "Quadratic Formula: "
           + "x = [-b ± √(b² - 4ac)] / 2a"
           + "\n\nArithmetic Progression: "
           + "a, a+d, a+2d, ...\n"
           + "Sum = n/2 [2a + (n-1)d]",
           "2023-10-15"),
      Note(2, "Indian Constitution", "History",
           "The Constitution of India "
           + "was adopted on 26 November 1949 "
           + "and came into effect "
           + "on 26 January 1950.\n\n"
           + "It is the longest "
           + "written constitution "
           + "of any sovereign country "
           + "in the world.",
           "2023-10-10"),
      Note(3, "Newton's Laws of Motion", "Science",
           "First Law: An object at rest "
           + "stays at rest and an object "
           + "in motion stays in motion "
           + "unless acted upon "
           + "by an external force.\n\n"
           + "Second Law: F = ma\n\n"
           + "Third Law: For every action, "
           + "there is an equal "
           + "and opposite reaction.",
           "2023-10-05") ];
    IdsOfThree(r);
    r
  }

  /** Dropping notes (keeping the order of the rest) cannot create a
      duplicate id. */
  lemma {:induction false} SubsequenceKeepsUniqueIds(r: seq<Note>, s: seq<Note>)
    requires IsSubsequence(r, s) && UniqueIds(s)
    ensures UniqueIds(r)
    decreases |s|
  {
    if r != [] {
      assert UniqueIds(s[1..]) by {
        forall i, j | 0 <= i < j < |s| - 1 ensures s[1..][i].id != s[1..][j].id {
          assert s[1..][i] == s[i + 1] && s[1..][j] == s[j + 1];
        }
      }
      if r[0] == s[0] && IsSubsequence(r[1..], s[1..]) {
        SubsequenceKeepsUniqueIds(r[1..], s[1..]);
        SubsequenceMembers(r[1..], s[1..]);
        forall i, j | 0 <= i < j < |r| ensures r[i].id != r[j].id {
          if i == 0 {
            assert r[j] == r[1..][j - 1];
            assert r[j] in s[1..];
            var k :| 0 <= k < |s| - 1 && s[1..][k] == r[j];
            assert s[k + 1] == r[j];
          } else {
            assert r[i] == r[1..][i - 1] && r[j] == r[1..][j - 1];
          }
        }
      } else {
        SubsequenceKeepsUniqueIds(r, s[1..]);
      }
    }
  }

  /** Appending a note keeps the ids unique exactly when its id is new. */
  lemma AppendUniqueIds(s: seq<Note>, n: Note)
    ensures UniqueIds(s + [n]) <==> UniqueIds(s) && n.id !in Ids(s)
  {
    var t := s + [n];
    if UniqueIds(t) {
      forall i, j | 0 <= i < j < |s| ensures s[i].id != s[j].id {
        assert s[i] == t[i] && s[j] == t[j];
      }
      forall m | m in s ensures m.id != n.id {
        var k :| 0 <= k < |s| && s[k] == m;
        assert t[k] == m && t[|s|] == n;
      }
    }
    if UniqueIds(s) && n.id !in Ids(s) {
      forall i, j | 0 <= i < j < |t| ensures t[i].id != t[j].id {
        if j == |s| {
          assert t[i] == s[i];
          assert s[i] in s;
        } else {
          assert t[i] == s[i] && t[j] == s[j];
        }
      }
    }
  }

  /** Removing every note with an id that is not present changes nothing. */
  lemma WithoutAbsentId(s: seq<Note>, id: nat)
    requires id !in Ids(s)
    ensures WithoutId(s, id) == s
  {
    var p := (n: Note) => n.id != id;
    KeepAll(s, p);
  }

  /** Creating a note keeps the ids unique. */
  lemma CreateKeepsUniqueIds(s: seq<Note>, title: string, subject: string, content: string, date: string)
    requires UniqueIds(s)
    ensures UniqueIds(s + [Note(NextId(s), title, subject, content, date)])
  {
    AppendUniqueIds(s, Note(NextId(s), title, subject, content, date));
  }

  /** Removing a note's id and appending one record with that id keeps the
      ids unique, and that id then belongs to exactly the appended record. */
  lemma ReplaceKeepsUniqueIds(s: seq<Note>, n: Note)
    requires UniqueIds(s)
    ensures UniqueIds(WithoutId(s, n.id) + [n])
  {
    var w := WithoutId(s, n.id);
    SubsequenceKeepsUniqueIds(w, s);
    AppendUniqueIds(w, n);
  }

  /** Deleting every note with an id keeps the ids unique. */
  lemma DeleteKeepsUniqueIds(s: seq<Note>, id: nat)
    requires UniqueIds(s)
    ensures UniqueIds(WithoutId(s, id))
  {
    SubsequenceKeepsUniqueIds(WithoutId(s, id), s);
  }

  /** Ids are not a counter: after the note with the largest id is deleted,
      the next id is at most the deleted one, and equals it exactly when the
      deleted id is 1 or its predecessor is still in use. */
  lemma NextIdAfterDeletingMax(s: seq<Note>)
    requires s != []
    ensures MaxId(s) >= 1 ==> NextId(WithoutId(s, MaxId(s))) <= MaxId(s)
    ensures NextId(WithoutId(s, MaxId(s))) == MaxId(s) <==> MaxId(s) == 1 || (MaxId(s) > 1 && MaxId(s) - 1 in Ids(s))
  {
    var m := MaxId(s);
    var w := WithoutId(s, m);
    assert forall x :: x in w ==> x.id < m;
    if w != [] {
      var k := MaxId(w);
      assert k < m by {
        var x :| x in w && x.id == k;
      }
      if m > 1 && m - 1 in Ids(s) {
        var x :| x in s && x.id == m - 1;
        assert x in w;
      }
    }
  }

  lemma IdsOfThree(s: seq<Note>)
    requires |s| == 3 && s[0].id == 1 && s[1].id == 2 && s[2].id == 3
    ensures Ids(s) == {1, 2, 3} && UniqueIds(s)
  {
    assert forall n :: n in s ==> n == s[0] || n == s[1] || n == s[2];
    assert s[2] in s && s[1] in s && s[0] in s;
  }

  /** With notes 1, 2 and 3 present, deleting note 3 and then creating a
      note hands out id 3 again. */
  lemma ReuseAfterDeletingThird(s: seq<Note>)
    requires |s| == 3 && s[0].id == 1 && s[1].id == 2 && s[2].id == 3
    ensures Ids(s) == {1, 2, 3} && UniqueIds(s)
    ensures NextId(s) == 4
    ensures NextId(WithoutId(s, 3)) == 3
  {
    IdsOfThree(s);
    assert MaxId(s) == 3;
    NextIdAfterDeletingMax(s);
  }

  /** On the starting collection the next note gets id 4, or id 3 once
      note 3 is deleted. */
  lemma SeedReusesDeletedId()
    ensures NextId(SeedNotes()) == 4
    ensures NextId(WithoutId(SeedNotes(), 3)) == 3
  {
    ReuseAfterDeletingThird(SeedNotes());
  }

  /** Removing a note whose id is not the largest leaves the next id as it
      was, so a note created right after gets a different id from the
      removed one. */
  lemma NextIdAfterRemovingBelowMax(s: seq<Note>, id: nat)
    requires id in Ids(s) && id != MaxId(s)
    ensures NextId(WithoutId(s, id)) == NextId(s)
    ensures NextId(WithoutId(s, id)) != id
  {
    var m := MaxId(s);
    var w := WithoutId(s, id);
    var x :| x in s && x.id == m;
    assert x in w;
    assert MaxId(w) == m by {
      var y :| y in w && y.id == MaxId(w);
    }
  }

  /** On the starting collection, taking note 1 out and creating a note
      hands out id 4. */
  lemma SeedNextIdWithoutFirst()
    ensures NextId(WithoutId(SeedNotes(), 1)) == 4
  {
    SeedReusesDeletedId();
    NextIdAfterRemovingBelowMax(SeedNotes(), 1);
  }

  /** A freed id below the maximum is not handed out again: on an empty
      collection two creates give ids 1 and 2, and after deleting note 1 the
      next create gets 3. */
  lemma FreedLowIdIsNotReused(x: Note, y: Note)
    requires x.id == NextId([]) && y.id == NextId([x])
    ensures x.id == 1 && y.id == 2
    ensures WithoutId([x, y], 1) == [y]
    ensures NextId(WithoutId([x, y], 1)) == 3
  {
    var p := (n: Note) => n.id != 1;
    assert [x, y][1..] == [y] && [y][1..] == [];
    assert Keep([y], p) == [y] + Keep([], p);
    assert Keep([x, y], p) == Keep([y], p);
  }
}
