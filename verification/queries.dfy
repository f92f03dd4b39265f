/** The read-only views of the note page (script.js): the search box, the
    subject/exam/topic tag filter and the two statistics counters. */
module Queries {
  import opened Text
  import opened Filtering
  import opened Notes

  /** The search box's text, lower-cased and then trimmed. */
  function SearchTerm(raw: string): string
  {
    Trim(Lower(raw))
  }

  /** The lower-cased title, subject or content of `n` includes `term`. */
  predicate Mentions(n: Note, term: string)
  {
    Contains(Lower(n.title), term) || Contains(Lower(n.subject), term) || Contains(Lower(n.content), term)
  }

  /** `performSearch`: a blank term shows the whole collection; otherwise the
      notes that mention the term, in collection order. */
  function Search(s: seq<Note>, raw: string): (r: seq<Note>)
    ensures AllSpace(raw) ==> r == s
    ensures IsSubsequence(r, s)
    ensures !AllSpace(raw) ==> forall n :: n in r <==> n in s && Mentions(n, SearchTerm(raw))
    ensures !AllSpace(raw) ==> forall n :: multiset(r)[n] == if Mentions(n, SearchTerm(raw)) then multiset(s)[n] else 0
  {
    var term := SearchTerm(raw);
    if term == [] then
      SubsequenceReflexive(s);
      s
    else Keep(s, (n: Note) => Mentions(n, term))
  }

  /** The letter case of the search text does not matter. */
  lemma SearchIgnoresCase(s: seq<Note>, raw: string)
    ensures Search(s, Lower(raw)) == Search(s, raw)
  {
    LowerIdempotent(raw);
  }

  /** Searching the result of a search again with the same text changes
      nothing. */
  lemma SearchIdempotent(s: seq<Note>, raw: string)
    ensures Search(Search(s, raw), raw) == Search(s, raw)
  {
    var term := SearchTerm(raw);
    if term != [] {
      KeepIdempotent(s, (n: Note) => Mentions(n, term));
    }
  }

  /** A note is found by any part of any of its fields, in any letter case:
      a term occurring in its lower-cased subject finds it. */
  lemma SearchFindsSubject(s: seq<Note>, n: Note, raw: string, i: nat)
    requires n in s && !AllSpace(raw)
    requires OccursAt(Lower(n.subject), SearchTerm(raw), i)
    ensures n in Search(s, raw)
  {
    ContainsIff(Lower(n.subject), SearchTerm(raw));
  }

  /** Search text that starts and ends with a character other than white
      space is searched for as it is, only lower-cased. */
  lemma SearchTermOfWord(raw: string)
    requires raw != [] && !IsSpace(raw[0]) && !IsSpace(raw[|raw| - 1])
    ensures SearchTerm(raw) == Lower(raw)
  {
    var l := Lower(raw);
    assert TrimStart(l) == l;
    assert TrimEnd(l) == l;
  }

  /** A note filed under "Mathematics" is found by "MATH" and by
      "mathematics". */
  lemma SearchMatchesSubjectInAnyCase(s: seq<Note>, n: Note)
    requires n in s && n.subject == "Mathematics"
    ensures n in Search(s, "MATH") && n in Search(s, "mathematics")
  {
    assert Lower("Mathematics") == "mathematics";
    assert Lower("MATH") == "math";
    assert Lower("mathematics") == "mathematics";
    SearchTermOfWord("MATH");
    SearchTermOfWord("mathematics");
    assert OccursAt("mathematics", "math", 0);
    assert OccursAt("mathematics", "mathematics", 0);
    SearchFindsSubject(s, n, "MATH", 0);
    SearchFindsSubject(s, n, "mathematics", 0);
  }

  /** The subject tags of the page: the filter compares subjects exactly. */
  const SubjectTags: seq<string> := ["Mathematics", "Science", "History", "Geography", "Current Affairs"]

  /** The exam tags: the page shows every note for them. */
  const ExamTags: seq<string> := ["UPSC", "SSC", "Banking", "Railway"]

  /** The lower-cased content or title of `n` includes the lower-cased tag;
      the subject is not looked at. */
  predicate TagMentions(n: Note, tag: string)
  {
    Contains(Lower(n.content), Lower(tag)) || Contains(Lower(n.title), Lower(tag))
  }

  /** The `.subject-tag` click handler. */
  function FilterByTag(s: seq<Note>, tag: string): (r: seq<Note>)
    ensures IsSubsequence(r, s)
    ensures tag in SubjectTags ==>
      forall n :: multiset(r)[n] == if n.subject == tag then multiset(s)[n] else 0
    ensures tag !in SubjectTags && tag in ExamTags ==> r == s
    ensures tag !in SubjectTags && tag !in ExamTags ==>
      forall n :: multiset(r)[n] == if TagMentions(n, tag) then multiset(s)[n] else 0
  {
    if tag in SubjectTags then Keep(s, (n: Note) => n.subject == tag)
    else if tag in ExamTags then
      SubsequenceReflexive(s);
      s
    else Keep(s, (n: Note) => TagMentions(n, tag))
  }

  /** Filtering the filtered notes again by the same tag changes nothing. */
  lemma FilterByTagIdempotent(s: seq<Note>, tag: string)
    ensures FilterByTag(FilterByTag(s, tag), tag) == FilterByTag(s, tag)
  {
    if tag in SubjectTags {
      KeepIdempotent(s, (n: Note) => n.subject == tag);
    } else if tag !in ExamTags {
      KeepIdempotent(s, (n: Note) => TagMentions(n, tag));
    }
  }

  /** A subject tag is compared case-sensitively: a note filed under
      "mathematics" does not show under "Mathematics". */
  lemma SubjectTagIsCaseSensitive(s: seq<Note>, n: Note)
    requires n in s && n.subject == "mathematics"
    ensures n !in FilterByTag(s, "Mathematics")
  {
    assert "Mathematics" in SubjectTags;
    assert multiset(FilterByTag(s, "Mathematics"))[n] == 0;
  }

  /** `new Set(notes.map(n => n.subject))`, built one note at a time: the
      subjects that some note has, no more distinct subjects than notes,
      and at least one when there is a note. */
  function Subjects(s: seq<Note>): (r: set<string>)
    ensures forall n :: n in s ==> n.subject in r
    ensures forall x :: x in r ==> exists n :: n in s && n.subject == x
    ensures |r| <= |s|
    ensures s != [] ==> |r| >= 1
  {
    if s == [] then {}
    else
      var rest := Subjects(s[1..]);
      assert forall n :: n in s <==> n == s[0] || n in s[1..];
      {s[0].subject} + rest
  }

  /** The two counters `updateStats` shows. */
  datatype Stats = Stats(total: nat, subjects: nat)

  /** `updateStats`: the number of notes and of distinct subjects. */
  function CountStats(s: seq<Note>): (st: Stats)
    ensures st.total == |s|
    ensures st.subjects <= st.total
    ensures st.subjects == 0 <==> s == []
  {
    Stats(|s|, |Subjects(s)|)
  }

  /** No two notes share a subject. */
  ghost predicate DistinctSubjects(s: seq<Note>)
  {
    forall i, j :: 0 <= i < j < |s| ==> s[i].subject != s[j].subject
  }

  /** Putting a note whose subject no later note has in front of a
      collection keeps its subjects distinct or not distinct as they were;
      one whose subject a later note has makes them not distinct. */
  lemma {:induction false} DistinctSubjectsCons(s: seq<Note>)
    requires s != []
    ensures s[0].subject in Subjects(s[1..]) ==> !DistinctSubjects(s)
    ensures s[0].subject !in Subjects(s[1..]) ==> (DistinctSubjects(s) <==> DistinctSubjects(s[1..]))
  {
    var t := s[1..];
    if s[0].subject in Subjects(t) {
      var m :| m in t && m.subject == s[0].subject;
      var k :| 0 <= k < |t| && t[k] == m;
      assert s[k + 1] == m;
    } else {
      if DistinctSubjects(t) {
        forall i, j | 0 <= i < j < |s| ensures s[i].subject != s[j].subject {
          if i == 0 {
            assert s[j] == t[j - 1];
            assert s[j] in t;
          } else {
            assert s[i] == t[i - 1] && s[j] == t[j - 1];
          }
        }
      }
      if DistinctSubjects(s) {
        forall i, j | 0 <= i < j < |t| ensures t[i].subject != t[j].subject {
          assert t[i] == s[i + 1] && t[j] == s[j + 1];
        }
      }
    }
  }

  /** The subject counter equals the note counter exactly when no two notes
      share a subject. */
  lemma {:induction false} SubjectCountEqualsTotal(s: seq<Note>)
    ensures CountStats(s).subjects == CountStats(s).total <==> DistinctSubjects(s)
  {
    if s != [] {
      SubjectCountEqualsTotal(s[1..]);
      DistinctSubjectsCons(s);
    }
  }

  /** Notes under "Math", "Math" and "History" count as two subjects. */
  lemma TwoDistinctSubjects(a: Note, b: Note, c: Note)
    requires a.subject == "Math" && b.subject == "Math" && c.subject == "History"
    ensures CountStats([a, b, c]) == Stats(3, 2)
  {
    var s := [a, b, c];
    assert s[1..] == [b, c] && s[1..][1..] == [c] && s[1..][1..][1..] == [];
    assert Subjects(s) == {"Math", "History"};
  }
}
