/**
 * The notes catalogue as the single-page client presents it: the notes
 * data module (subject -> list of notes) flattened into one list with
 * generated ids and display defaults, and the search/semester/subject
 * filter over that list.
 */
module NotesCatalog {
  import opened Basics

  /** An entry of the notes data module, as it is written there. */
  datatype SourceNote = SourceNote(
    title: string, semester: string, size: Option<string>,
    url: Option<string>, uploadedAt: Option<string>)

  /** The notes data module: its subjects in key order, each with its notes. */
  type NotesData = seq<(string, seq<SourceNote>)>

  /** A note of the flattened list. */
  datatype Note = Note(
    id: string, title: string, semester: string, subject: string,
    size: string, fileUrl: Option<string>, uploadedAt: string)

  const DEFAULT_SIZE: string := "2 MB"

  /** JavaScript's `v || fallback` on an optional string: undefined, null
      and the empty string all fall back. */
  function OrElse(v: Option<string>, fallback: string): string {
    if v.Some? && v.value != "" then v.value else fallback
  }

  /** The template literal `${subject}-${idx}`. */
  function NoteId(subject: string, idx: nat): string {
    subject + "-" + Decimal(idx)
  }

  function FlatNote(subject: string, idx: nat, n: SourceNote): Note {
    Note(NoteId(subject, idx), n.title, n.semester, subject,
         OrElse(n.size, DEFAULT_SIZE), n.url, OrElse(n.uploadedAt, ""))
  }

  /** Distinct positions of one subject get distinct ids. */
  lemma NoteIdsDistinct(subject: string, n: nat)
    ensures forall i: nat, j: nat :: i < j < n ==> NoteId(subject, i) != NoteId(subject, j)
  {
    forall i: nat, j: nat | i < j < n ensures NoteId(subject, i) != NoteId(subject, j) {
      NoteIdInjective(subject, i, subject, j);
    }
  }

  /** `notes.map((note, idx) => ...)` for one subject: one entry per source
      note, at the same index, with the generated id and the display
      defaults, and no two entries sharing an id. */
  function SubjectNotes(subject: string, ns: seq<SourceNote>): (r: seq<Note>)
    ensures |r| == |ns|
    ensures forall j :: 0 <= j < |ns| ==>
      && r[j].id == subject + "-" + Decimal(j)
      && r[j].title == ns[j].title && r[j].semester == ns[j].semester && r[j].subject == subject
      && r[j].fileUrl == ns[j].url
      && r[j].size == (if ns[j].size.Some? && ns[j].size.value != "" then ns[j].size.value else "2 MB")
      && r[j].uploadedAt == (if ns[j].uploadedAt.Some? && ns[j].uploadedAt.value != "" then ns[j].uploadedAt.value else "")
    ensures forall i, j :: 0 <= i < j < |r| ==> r[i].id != r[j].id
  {
    NoteIdsDistinct(subject, |ns|);
    seq(|ns|, j requires 0 <= j < |ns| => FlatNote(subject, j, ns[j]))
  }

  /** `Object.entries(notesData).flatMap(...)` */
  function AllNotes(data: NotesData): seq<Note> {
    if data == [] then [] else SubjectNotes(data[0].0, data[0].1) + AllNotes(data[1..])
  }

  /** Number of notes in the first `g` subjects. */
  function Offset(data: NotesData, g: nat): nat
    requires g <= |data|
  {
    if g == 0 then 0 else Offset(data, g - 1) + |data[g - 1].1|
  }

  lemma {:induction false} AllNotesLength(data: NotesData)
    ensures |AllNotes(data)| == Offset(data, |data|)
  {
    if data != [] {
      AllNotesLength(data[1..]);
      OffsetShift(data, |data|);
    }
  }

  lemma {:induction false} OffsetShift(data: NotesData, g: nat)
    requires 1 <= g <= |data|
    ensures Offset(data, g) == |data[0].1| + Offset(data[1..], g - 1)
  {
    if g > 1 {
      OffsetShift(data, g - 1);
    }
  }

  lemma {:induction false} AllNotesAtFlat(data: NotesData, g: nat, j: nat)
    requires g < |data| && j < |data[g].1|
    ensures Offset(data, g) + j < |AllNotes(data)|
    ensures AllNotes(data)[Offset(data, g) + j] == FlatNote(data[g].0, j, data[g].1[j])
  {
    AllNotesLength(data);
    OffsetShift(data, g + 1);
    if g == 0 {
      assert AllNotes(data)[j] == SubjectNotes(data[0].0, data[0].1)[j] == FlatNote(data[0].0, j, data[0].1[j]);
    } else {
      AllNotesAtFlat(data[1..], g - 1, j);
      OffsetShift(data, g);
      assert AllNotes(data)[Offset(data, g) + j] == AllNotes(data[1..])[Offset(data[1..], g - 1) + j];
    }
  }

  /** Flattening yields one entry per source note, in order: the `j`-th note
      of the `g`-th subject sits right after the notes of the subjects
      before it, with the generated id and the display defaults. */
  lemma AllNotesAt(data: NotesData, g: nat, j: nat)
    requires g < |data| && j < |data[g].1|
    ensures |AllNotes(data)| == Offset(data, |data|)
    ensures Offset(data, g) + j < |AllNotes(data)|
    ensures var e, src, subject := AllNotes(data)[Offset(data, g) + j], data[g].1[j], data[g].0;
      && e.id == subject + "-" + Decimal(j)
      && e.title == src.title && e.semester == src.semester && e.subject == subject
      && e.fileUrl == src.url
      && e.size == (if src.size.Some? && src.size.value != "" then src.size.value else "2 MB")
      && e.uploadedAt == (if src.uploadedAt.Some? && src.uploadedAt.value != "" then src.uploadedAt.value else "")
  {
    AllNotesLength(data);
    AllNotesAtFlat(data, g, j);
  }

  /** `id` is generated from one of the subjects of `data`. */
  ghost predicate IdFromSubjects(data: NotesData, id: string) {
    exists g: nat, j: nat :: g < |data| && id == NoteId(data[g].0, j)
  }

  /** Every flattened id is generated from one of the subjects. */
  lemma {:induction false} AllNotesIdsFromSubjects(data: NotesData)
    ensures forall p :: 0 <= p < |AllNotes(data)| ==> IdFromSubjects(data, AllNotes(data)[p].id)
  {
    if data != [] {
      var h: seq<Note>, t: seq<Note> := SubjectNotes(data[0].0, data[0].1), AllNotes(data[1..]);
      assert AllNotes(data) == h + t;
      AllNotesIdsFromSubjects(data[1..]);
      forall p | 0 <= p < |AllNotes(data)| ensures IdFromSubjects(data, AllNotes(data)[p].id) {
        if p < |h| {
          assert AllNotes(data)[p].id == NoteId(data[0].0, p);
        } else {
          assert AllNotes(data)[p] == t[p - |h|];
          assert IdFromSubjects(data[1..], t[p - |h|].id);
          var g: nat, j: nat :| g < |data[1..]| && t[p - |h|].id == NoteId(data[1..][g].0, j);
          assert data[1..][g] == data[g + 1];
          assert AllNotes(data)[p].id == NoteId(data[g + 1].0, j);
        }
      }
    } else {
      assert AllNotes(data) == [];
    }
  }

  /** The subjects are the keys of one object, so they are distinct. */
  predicate DistinctSubjects(data: NotesData) {
    forall a, b :: 0 <= a < b < |data| ==> data[a].0 != data[b].0
  }

  /** An id of the first subject is never an id generated from a later one. */
  lemma FirstSubjectIdIsNotLater(data: NotesData, j: nat, id: string)
    requires data != [] && DistinctSubjects(data)
    requires IdFromSubjects(data[1..], id)
    ensures NoteId(data[0].0, j) != id
  {
    var g: nat, k: nat :| g < |data[1..]| && id == NoteId(data[1..][g].0, k);
    assert data[1..][g] == data[g + 1];
    NoteIdInjective(data[0].0, j, data[g + 1].0, k);
  }

  lemma TailDistinctSubjects(data: NotesData)
    requires data != [] && DistinctSubjects(data)
    ensures DistinctSubjects(data[1..])
  {
    forall a, b | 0 <= a < b < |data[1..]| ensures data[1..][a].0 != data[1..][b].0 {
      assert data[1..][a] == data[a + 1] && data[1..][b] == data[b + 1];
    }
  }

  /** Two positions of the flattened list, split into the first subject's
      block `h` and the rest `t`, carry different ids. */
  lemma SplitIdsDiffer(data: NotesData, h: seq<Note>, t: seq<Note>, p: nat, q: nat)
    requires data != [] && DistinctSubjects(data)
    requires h == SubjectNotes(data[0].0, data[0].1)
    requires forall x, y :: 0 <= x < y < |t| ==> t[x].id != t[y].id
    requires forall x :: 0 <= x < |t| ==> IdFromSubjects(data[1..], t[x].id)
    requires p < q < |h + t|
    ensures (h + t)[p].id != (h + t)[q].id
  {
    if p >= |h| {
      assert (h + t)[p] == t[p - |h|] && (h + t)[q] == t[q - |h|];
    } else if q >= |h| {
      assert (h + t)[q] == t[q - |h|] && (h + t)[p] == h[p];
      FirstSubjectIdIsNotLater(data, p, t[q - |h|].id);
    } else {
      assert (h + t)[p] == h[p] && (h + t)[q] == h[q];
    }
  }

  /** With distinct subject keys no two entries of the flattened list share
      an id (the list's React keys are unique). */
  lemma {:induction false} AllNotesIdsDistinct(data: NotesData)
    requires DistinctSubjects(data)
    ensures forall p, q :: 0 <= p < q < |AllNotes(data)| ==> AllNotes(data)[p].id != AllNotes(data)[q].id
  {
    if data != [] {
      var h: seq<Note>, t: seq<Note> := SubjectNotes(data[0].0, data[0].1), AllNotes(data[1..]);
      assert AllNotes(data) == h + t;
      TailDistinctSubjects(data);
      AllNotesIdsDistinct(data[1..]);
      AllNotesIdsFromSubjects(data[1..]);
      forall p, q | 0 <= p < q < |h + t| ensures (h + t)[p].id != (h + t)[q].id {
        SplitIdsDiffer(data, h, t, p, q);
      }
    }
  }

  /** Index of the last '-' in `x`, or -1 when there is none. */
  function LastDash(x: string): (r: int)
    ensures -1 <= r < |x|
  {
    if x == [] then -1 else if x[|x| - 1] == '-' then |x| - 1 else LastDash(x[..|x| - 1])
  }

  lemma {:induction false} LastDashBeforeDigits(a: string, d: string)
    requires forall i :: 0 <= i < |d| ==> IsDigit(d[i])
    ensures LastDash(a + "-" + d) == |a|
  {
    var x := a + "-" + d;
    if d != [] {
      assert x[..|x| - 1] == a + "-" + d[..|d| - 1];
      LastDashBeforeDigits(a, d[..|d| - 1]);
    }
  }

  /** A generated id names its subject and index: distinct subjects (the
      keys of one object) or distinct positions never share an id. */
  lemma NoteIdInjective(s1: string, j1: nat, s2: string, j2: nat)
    ensures NoteId(s1, j1) == NoteId(s2, j2) <==> s1 == s2 && j1 == j2
  {
    var x := NoteId(s1, j1);
    if x == NoteId(s2, j2) {
      LastDashBeforeDigits(s1, Decimal(j1));
      LastDashBeforeDigits(s2, Decimal(j2));
      assert s1 == x[..|s1|] == s2;
      assert Decimal(j1) == x[|s1| + 1..] == Decimal(j2);
      DecimalInjective(j1, j2);
    }
  }

  // ---------------------------------------------------------------------
  // The search and filter of the notes view
  // ---------------------------------------------------------------------

  /** `toLowerCase` on one character, for the ASCII letters. */
  function LowerChar(c: char): char {
    if 'A' <= c <= 'Z' then (c as int - 'A' as int + 'a' as int) as char else c
  }

  /** `s.toLowerCase()`: no capital is left, every other character is kept
      in place, and each capital becomes the small letter 32 code points on. */
  function ToLowerCase(s: string): (r: string)
    ensures |r| == |s|
    ensures forall i :: 0 <= i < |r| ==> !('A' <= r[i] <= 'Z')
    ensures forall i :: 0 <= i < |s| && !('A' <= s[i] <= 'Z') ==> r[i] == s[i]
    ensures forall i :: 0 <= i < |s| && 'A' <= s[i] <= 'Z' ==> r[i] as int == s[i] as int + 32
  {
    seq(|s|, i requires 0 <= i < |s| => LowerChar(s[i]))
  }

  /** Lowercasing a lowercased string changes nothing. */
  lemma ToLowerCaseIdempotent(s: string)
    ensures ToLowerCase(ToLowerCase(s)) == ToLowerCase(s)
  {
  }

  /** `sub` occurs in `s` starting at index `i`. */
  predicate OccursAt(s: string, sub: string, i: nat) {
    i + |sub| <= |s| && s[i..i + |sub|] == sub
  }

  /** `s.includes(sub)` */
  predicate Includes(s: string, sub: string) {
    exists i: nat :: i <= |s| && OccursAt(s, sub, i)
  }

  /** The predicate passed to `notes.filter`. */
  predicate Keep(n: Note, query: string, semester: string, subject: string) {
    var q := ToLowerCase(query);
    && (Includes(ToLowerCase(n.title), q) || Includes(ToLowerCase(n.subject), q))
    && (semester == "all" || n.semester == semester)
    && (subject == "all" || n.subject == subject)
  }

  /** `filteredNotes` */
  function FilteredNotes(notes: seq<Note>, query: string, semester: string, subject: string): (r: seq<Note>)
    ensures forall n :: n in r <==> n in notes && Keep(n, query, semester, subject)
  {
    if notes == [] then []
    else
      var rest := FilteredNotes(notes[1..], query, semester, subject);
      assert notes == [notes[0]] + notes[1..];
      if Keep(notes[0], query, semester, subject) then [notes[0]] + rest else rest
  }

  /** The filter keeps the notes' relative order. */
  lemma {:induction false} FilteredIsSubsequence(notes: seq<Note>, query: string, semester: string, subject: string)
    ensures IsSubsequence(FilteredNotes(notes, query, semester, subject), notes)
  {
    if notes != [] {
      var rest := FilteredNotes(notes[1..], query, semester, subject);
      FilteredIsSubsequence(notes[1..], query, semester, subject);
      if Keep(notes[0], query, semester, subject) {
        assert ([notes[0]] + rest)[1..] == rest;
      } else if rest != [] {
        assert IsSubsequence(rest, notes[1..]);
      }
    }
  }

  /** An empty search with both filters at "all" shows every note. */
  lemma {:induction false} UnfilteredShowsAll(notes: seq<Note>)
    ensures FilteredNotes(notes, "", "all", "all") == notes
  {
    if notes != [] {
      var n := notes[0];
      assert OccursAt(ToLowerCase(n.title), ToLowerCase(""), 0);
      assert Keep(n, "", "all", "all");
      UnfilteredShowsAll(notes[1..]);
      assert notes == [notes[0]] + notes[1..];
    }
  }
}
