/**
 * The timetable allocator of `src/utils/timetableGenerator.ts`: a session pool built from
 * the teacher roster, shuffled (here: reordered by a caller-supplied permutation), then laid
 * out greedily in every day's grid of class cells, plus `formatTimeSlot`. The two colour
 * lookups of the same file are in the module `TimetableColors` below.
 * The roster, the slot catalogue, the day list and the room lists are parameters.
 */
module TimetableGenerator {
  import opened Wrappers
  import opened JsString

  /** A roster entry: `kind` is the source's `type` ("TH", "LAB", or anything else). */
  datatype Teacher = Teacher(shortForm: string, courseShort: string, kind: string)

  /** An entry of the time-slot catalogue; only entries of kind "class" are grid cells. */
  datatype TimeSlot = TimeSlot(startTime: string, endTime: string, kind: string)

  /** The room lists, by category, used round-robin. */
  datatype RoomCatalog = RoomCatalog(theory: seq<string>, lab: seq<string>)

  /**
   * A session, both in the pool and once placed in a cell. `batches` is absent except on lab
   * sessions; `isDoubleSlot` stands for the optional flag, `false` where the source leaves it out.
   */
  datatype TimetableSlot = TimetableSlot(
    slotId: string, teacher: string, course: string, kind: string, room: string,
    batches: Option<seq<string>>, isDoubleSlot: bool)

  /** One day of the timetable: a cell per class slot, each empty or holding a session. */
  datatype DaySchedule = DaySchedule(day: string, slots: seq<Option<TimetableSlot>>)

  // The pool policy is written as literals where it occurs: at most 5 theory and 5 lab
  // teachers are used, 3 sessions per theory teacher, 2 per lab teacher, 2 library and 2
  // project sessions.
  const LabBatches: seq<string> := ["D1", "D2", "D3", "D4"]
  const ContinuationSuffix := " (Cont.)"

  function Min(a: nat, b: nat): nat { if a < b then a else b }

  // ---------------------------------------------------------------------------------------
  // Filters over the inputs

  /** `teachers.filter(t => t.type === kind)`: the roster entries of one kind, in roster order. */
  function OfKind(teachers: seq<Teacher>, kind: string): (r: seq<Teacher>)
    ensures |r| <= |teachers|
    ensures forall k :: 0 <= k < |r| ==> r[k].kind == kind
    ensures forall t :: t in r <==> t in teachers && t.kind == kind
  {
    if teachers == [] then []
    else (if teachers[0].kind == kind then [teachers[0]] else []) + OfKind(teachers[1..], kind)
  }

  /** The roster filter works piecewise: filtering two blocks is filtering each, in order. */
  lemma {:induction false} OfKindAppend(a: seq<Teacher>, b: seq<Teacher>, kind: string)
    ensures OfKind(a + b, kind) == OfKind(a, kind) + OfKind(b, kind)
  {
    if a == [] {
      assert a + b == b;
    } else {
      assert (a + b)[0] == a[0] && (a + b)[1..] == a[1..] + b;
      OfKindAppend(a[1..], b, kind);
    }
  }

  /** One roster entry is kept exactly when it has the kind. */
  lemma OfKindOne(t: Teacher, kind: string)
    ensures OfKind([t], kind) == if t.kind == kind then [t] else []
  {
    assert [t][1..] == [];
  }

  /** `timeSlots.filter(slot => slot.type === 'class')`: the cells of one day, in catalogue order. */
  function ClassSlots(timeSlots: seq<TimeSlot>): (r: seq<TimeSlot>)
    ensures |r| <= |timeSlots|
    ensures forall k :: 0 <= k < |r| ==> r[k].kind == "class"
    ensures forall s :: s in r <==> s in timeSlots && s.kind == "class"
  {
    if timeSlots == [] then []
    else (if timeSlots[0].kind == "class" then [timeSlots[0]] else []) + ClassSlots(timeSlots[1..])
  }

  /** The slot filter works piecewise: filtering two blocks is filtering each, in order. */
  lemma {:induction false} ClassSlotsAppend(a: seq<TimeSlot>, b: seq<TimeSlot>)
    ensures ClassSlots(a + b) == ClassSlots(a) + ClassSlots(b)
  {
    if a == [] {
      assert a + b == b;
    } else {
      assert (a + b)[0] == a[0] && (a + b)[1..] == a[1..] + b;
      ClassSlotsAppend(a[1..], b);
    }
  }

  /** One catalogue entry is a cell exactly when its type is `class`. */
  lemma ClassSlotsOne(slot: TimeSlot)
    ensures ClassSlots([slot]) == if slot.kind == "class" then [slot] else []
  {
    assert [slot][1..] == [];
  }

  /** `slice(0, 5)` of the theory teachers. */
  function SelectedTheory(teachers: seq<Teacher>): seq<Teacher> {
    var th := OfKind(teachers, "TH");
    th[..Min(|th|, 5)]
  }

  /** `slice(0, 5)` of the lab teachers. */
  function SelectedLab(teachers: seq<Teacher>): seq<Teacher> {
    var lab := OfKind(teachers, "LAB");
    lab[..Min(|lab|, 5)]
  }

  /**
   * The room lists can serve the roster: `rooms.x[index % rooms.x.length]` is defined only
   * when list x is non-empty, which matters only when some teacher of that kind is selected.
   */
  predicate RoomsCover(teachers: seq<Teacher>, rooms: RoomCatalog) {
    (|SelectedTheory(teachers)| > 0 ==> |rooms.theory| > 0) &&
    (|SelectedLab(teachers)| > 0 ==> |rooms.lab| > 0)
  }

  // ---------------------------------------------------------------------------------------
  // The session pool

  /** The i-th session of the theory teacher at position `index` of the selection. */
  function TheorySession(t: Teacher, index: nat, i: nat, rooms: seq<string>): TimetableSlot
    requires |rooms| > 0
  {
    TimetableSlot("theory-" + NatToString(index) + "-" + NatToString(i), t.shortForm,
                  t.courseShort, "TH", rooms[index % |rooms|], None, false)
  }

  /** The i-th session of the lab teacher at position `index` of the selection. */
  function LabSession(t: Teacher, index: nat, i: nat, rooms: seq<string>): TimetableSlot
    requires |rooms| > 0
  {
    TimetableSlot("lab-" + NatToString(index) + "-" + NatToString(i), t.shortForm,
                  t.courseShort, "LAB", rooms[index % |rooms|], Some(LabBatches), true)
  }

  function LibrarySession(i: nat): TimetableSlot {
    TimetableSlot("library-" + NatToString(i), "LIB", "LIBRARY", "LIBRARY", "Library", None, false)
  }

  function ProjectSession(i: nat): TimetableSlot {
    TimetableSlot("project-" + NatToString(i), "PROJ", "PROJECT", "PROJECT", "Project Room", None, false)
  }

  /** Session j of the theory block: the (j % 3)-th of the (j / 3)-th selected theory teacher. */
  function TheoryAt(th: seq<Teacher>, rooms: seq<string>, j: nat): TimetableSlot
    requires j < 3 * |th| && |rooms| > 0
  {
    TheorySession(th[j / 3], j / 3,
                  j % 3, rooms)
  }

  /** Session j of the lab block: the (j % 2)-th of the (j / 2)-th selected lab teacher. */
  function LabAt(lab: seq<Teacher>, rooms: seq<string>, j: nat): TimetableSlot
    requires j < 2 * |lab| && |rooms| > 0
  {
    LabSession(lab[j / 2], j / 2,
               j % 2, rooms)
  }

  /** The first n theory sessions: three per selected teacher, teacher by teacher. */
  function TheoryBlock(th: seq<Teacher>, rooms: seq<string>, n: nat): seq<TimetableSlot>
    requires n <= 3 * |th| && (n > 0 ==> |rooms| > 0)
  {
    seq(n, j requires 0 <= j < n => TheoryAt(th, rooms, j))
  }

  /** The first n lab sessions: two per selected teacher, teacher by teacher. */
  function LabBlock(lab: seq<Teacher>, rooms: seq<string>, n: nat): seq<TimetableSlot>
    requires n <= 2 * |lab| && (n > 0 ==> |rooms| > 0)
  {
    seq(n, j requires 0 <= j < n => LabAt(lab, rooms, j))
  }

  /** The first n library (resp. project) sessions. */
  function LibraryBlock(n: nat): seq<TimetableSlot> { seq(n, i requires 0 <= i < n => LibrarySession(i)) }
  function ProjectBlock(n: nat): seq<TimetableSlot> { seq(n, i requires 0 <= i < n => ProjectSession(i)) }

  lemma ThirdOf(index: nat, i: nat)
    requires i < 3
    ensures (3 * index + i) / 3 == index && (3 * index + i) % 3 == i
  {
  }

  lemma HalfOf(index: nat, i: nat)
    requires i < 2
    ensures (2 * index + i) / 2 == index && (2 * index + i) % 2 == i
  {
  }

  lemma TheoryBlockStep(th: seq<Teacher>, rooms: seq<string>, index: nat, i: nat)
    requires index < |th| && i < 3 && |rooms| > 0
    ensures TheoryBlock(th, rooms, 3 * index + i + 1)
            == TheoryBlock(th, rooms, 3 * index + i) + [TheorySession(th[index], index, i, rooms)]
  {
    ThirdOf(index, i);
    var n := 3 * index + i;
    assert TheoryAt(th, rooms, n) == TheorySession(th[index], index, i, rooms);
    assert TheoryBlock(th, rooms, n + 1)[..n] == TheoryBlock(th, rooms, n);
  }

  lemma LabBlockStep(lab: seq<Teacher>, rooms: seq<string>, index: nat, i: nat)
    requires index < |lab| && i < 2 && |rooms| > 0
    ensures LabBlock(lab, rooms, 2 * index + i + 1)
            == LabBlock(lab, rooms, 2 * index + i) + [LabSession(lab[index], index, i, rooms)]
  {
    HalfOf(index, i);
    var n := 2 * index + i;
    assert LabAt(lab, rooms, n) == LabSession(lab[index], index, i, rooms);
    assert LabBlock(lab, rooms, n + 1)[..n] == LabBlock(lab, rooms, n);
  }

  /** The number of sessions in the pool for a roster. */
  function PoolSize(teachers: seq<Teacher>): nat {
    3 * Min(|OfKind(teachers, "TH")|, 5)
    + 2 * Min(|OfKind(teachers, "LAB")|, 5)
    + 2 + 2
  }

  /** The session pool, in build order: theory, lab, library, then project sessions. */
  function Pool(teachers: seq<Teacher>, rooms: RoomCatalog): (pool: seq<TimetableSlot>)
    requires RoomsCover(teachers, rooms)
    ensures |pool| == PoolSize(teachers)
  {
    var th := SelectedTheory(teachers);
    var lab := SelectedLab(teachers);
    TheoryBlock(th, rooms.theory, 3 * |th|) + LabBlock(lab, rooms.lab, 2 * |lab|)
    + LibraryBlock(2) + ProjectBlock(2)
  }

  /** Position j of the pool, region by region. */
  lemma PoolAt(teachers: seq<Teacher>, rooms: RoomCatalog, j: nat)
    requires RoomsCover(teachers, rooms) && j < PoolSize(teachers)
    ensures var pool := Pool(teachers, rooms);
            var th := SelectedTheory(teachers);
            var lab := SelectedLab(teachers);
            var nTh := 3 * |th|;
            var nLab := 2 * |lab|;
            && (j < nTh ==> pool[j] == TheoryAt(th, rooms.theory, j))
            && (nTh <= j < nTh + nLab ==> pool[j] == LabAt(lab, rooms.lab, j - nTh))
            && (nTh + nLab <= j < nTh + nLab + 2 ==> pool[j] == LibrarySession(j - nTh - nLab))
            && (nTh + nLab + 2 <= j ==> pool[j] == ProjectSession(j - nTh - nLab - 2))
  {
    var nTh := 3 * |SelectedTheory(teachers)|;
    var nLab := 2 * |SelectedLab(teachers)|;
    if j < nTh {
      PoolAtTheory(teachers, rooms, j);
    } else if j < nTh + nLab {
      PoolAtLab(teachers, rooms, j);
    } else {
      PoolAtFixed(teachers, rooms, j);
    }
  }

  /** The pool size counted over the selections: 3 per theory teacher, 2 per lab teacher, and 4. */
  lemma PoolSizeSelected(teachers: seq<Teacher>)
    ensures PoolSize(teachers) == 3 * |SelectedTheory(teachers)| + 2 * |SelectedLab(teachers)| + 4
  {
  }

  /** The pool as its four blocks. */
  lemma PoolBlocks(teachers: seq<Teacher>, rooms: RoomCatalog)
    requires RoomsCover(teachers, rooms)
    ensures var th := SelectedTheory(teachers);
            var lab := SelectedLab(teachers);
            && |TheoryBlock(th, rooms.theory, 3 * |th|)| == 3 * |th|
            && |LabBlock(lab, rooms.lab, 2 * |lab|)| == 2 * |lab|
            && Pool(teachers, rooms) == TheoryBlock(th, rooms.theory, 3 * |th|) + LabBlock(lab, rooms.lab, 2 * |lab|)
                                        + LibraryBlock(2) + ProjectBlock(2)
  {
  }

  /** A position in the theory region holds the theory session of that position. */
  lemma PoolAtTheory(teachers: seq<Teacher>, rooms: RoomCatalog, j: nat)
    requires RoomsCover(teachers, rooms) && j < 3 * |SelectedTheory(teachers)|
    ensures Pool(teachers, rooms)[j] == TheoryAt(SelectedTheory(teachers), rooms.theory, j)
  {
    var th := SelectedTheory(teachers);
    var lab := SelectedLab(teachers);
    var theory := TheoryBlock(th, rooms.theory, 3 * |th|);
    var labs := LabBlock(lab, rooms.lab, 2 * |lab|);
    PoolBlocks(teachers, rooms);
    AppendAt(theory + labs + LibraryBlock(2), ProjectBlock(2), j);
    AppendAt(theory + labs, LibraryBlock(2), j);
    AppendAt(theory, labs, j);
    TheoryBlockAt(th, rooms.theory, 3 * |th|, j);
  }

  /** A position in the lab region holds the lab session of its offset into the region. */
  lemma PoolAtLab(teachers: seq<Teacher>, rooms: RoomCatalog, j: nat)
    requires RoomsCover(teachers, rooms)
    requires 3 * |SelectedTheory(teachers)| <= j < 3 * |SelectedTheory(teachers)| + 2 * |SelectedLab(teachers)|
    ensures Pool(teachers, rooms)[j] == LabAt(SelectedLab(teachers), rooms.lab, j - 3 * |SelectedTheory(teachers)|)
  {
    var th := SelectedTheory(teachers);
    var lab := SelectedLab(teachers);
    var theory := TheoryBlock(th, rooms.theory, 3 * |th|);
    var labs := LabBlock(lab, rooms.lab, 2 * |lab|);
    PoolBlocks(teachers, rooms);
    AppendAt(theory + labs + LibraryBlock(2), ProjectBlock(2), j);
    AppendAt(theory + labs, LibraryBlock(2), j);
    AppendAt(theory, labs, j);
    LabBlockAt(lab, rooms.lab, 2 * |lab|, j - 3 * |th|);
  }

  /** The last four positions hold library sessions 0 and 1, then project sessions 0 and 1. */
  lemma PoolAtFixed(teachers: seq<Teacher>, rooms: RoomCatalog, j: nat)
    requires RoomsCover(teachers, rooms)
    requires 3 * |SelectedTheory(teachers)| + 2 * |SelectedLab(teachers)| <= j < PoolSize(teachers)
    ensures var k := j - 3 * |SelectedTheory(teachers)| - 2 * |SelectedLab(teachers)|;
            Pool(teachers, rooms)[j] == if k < 2 then LibrarySession(k) else ProjectSession(k - 2)
  {
    var th := SelectedTheory(teachers);
    var lab := SelectedLab(teachers);
    var theory := TheoryBlock(th, rooms.theory, 3 * |th|);
    var labs := LabBlock(lab, rooms.lab, 2 * |lab|);
    PoolBlocks(teachers, rooms);
    PoolSizeSelected(teachers);
    var k := j - 3 * |th| - 2 * |lab|;
    assert |theory + labs + LibraryBlock(2)| == 3 * |th| + 2 * |lab| + 2;
    AppendAt(theory + labs + LibraryBlock(2), ProjectBlock(2), j);
    if k < 2 {
      AppendAt(theory + labs, LibraryBlock(2), j);
      assert LibraryBlock(2)[k] == LibrarySession(k);
    } else {
      assert ProjectBlock(2)[k - 2] == ProjectSession(k - 2);
    }
  }

  /** Position j of the theory block is theory session j. */
  lemma TheoryBlockAt(th: seq<Teacher>, rooms: seq<string>, n: nat, j: nat)
    requires j < n <= 3 * |th| && |rooms| > 0
    ensures TheoryBlock(th, rooms, n)[j] == TheoryAt(th, rooms, j)
  {
  }

  /** Position j of the lab block is lab session j. */
  lemma LabBlockAt(lab: seq<Teacher>, rooms: seq<string>, n: nat, j: nat)
    requires j < n <= 2 * |lab| && |rooms| > 0
    ensures LabBlock(lab, rooms, n)[j] == LabAt(lab, rooms, j)
  {
  }

  /** Indexing a concatenation: the left part's element, or the right part's, shifted. */
  lemma AppendAt<T>(a: seq<T>, b: seq<T>, j: nat)
    requires j < |a| + |b|
    ensures (a + b)[j] == if j < |a| then a[j] else b[j - |a|]
  {
  }

  /**
   * What the pool holds: three single theory sessions per selected theory teacher, then two
   * double lab sessions carrying the four batches per selected lab teacher, then two library
   * and two project sessions. The k-th selected teacher of a kind gets room k of that kind's
   * list, round-robin; only lab sessions are double.
   */
  lemma PoolShape(teachers: seq<Teacher>, rooms: RoomCatalog)
    requires RoomsCover(teachers, rooms)
    ensures var pool := Pool(teachers, rooms);
            var th := SelectedTheory(teachers);
            var lab := SelectedLab(teachers);
            var nTh := 3 * |th|;
            var nLab := 2 * |lab|;
            && |pool| == nTh + nLab + 4
            && (forall j :: 0 <= j < nTh ==>
                  && pool[j].slotId == "theory-" + NatToString(j / 3) + "-" + NatToString(j % 3)
                  && pool[j].kind == "TH" && !pool[j].isDoubleSlot && pool[j].batches == None
                  && pool[j].teacher == th[j / 3].shortForm
                  && pool[j].course == th[j / 3].courseShort
                  && pool[j].room == rooms.theory[(j / 3) % |rooms.theory|])
            && (forall j :: nTh <= j < nTh + nLab ==>
                  && pool[j].slotId == "lab-" + NatToString((j - nTh) / 2) + "-" + NatToString((j - nTh) % 2)
                  && pool[j].kind == "LAB" && pool[j].isDoubleSlot
                  && pool[j].batches == Some(["D1", "D2", "D3", "D4"])
                  && pool[j].teacher == lab[(j - nTh) / 2].shortForm
                  && pool[j].course == lab[(j - nTh) / 2].courseShort
                  && pool[j].room == rooms.lab[((j - nTh) / 2) % |rooms.lab|])
            && (forall j :: nTh + nLab <= j < nTh + nLab + 2 ==>
                  && pool[j].slotId == "library-" + NatToString(j - nTh - nLab)
                  && pool[j].teacher == "LIB" && pool[j].course == "LIBRARY" && pool[j].kind == "LIBRARY"
                  && pool[j].room == "Library" && pool[j].batches == None && !pool[j].isDoubleSlot)
            && (forall j :: nTh + nLab + 2 <= j < nTh + nLab + 4 ==>
                  && pool[j].slotId == "project-" + NatToString(j - nTh - nLab - 2)
                  && pool[j].teacher == "PROJ" && pool[j].course == "PROJECT" && pool[j].kind == "PROJECT"
                  && pool[j].room == "Project Room" && pool[j].batches == None && !pool[j].isDoubleSlot)
  {
    forall j | 0 <= j < PoolSize(teachers) {
      PoolAt(teachers, rooms, j);
    }
  }

  /** Only lab sessions are double. */
  lemma OnlyLabsAreDouble(teachers: seq<Teacher>, rooms: RoomCatalog, j: nat)
    requires RoomsCover(teachers, rooms) && j < PoolSize(teachers)
    ensures Pool(teachers, rooms)[j].isDoubleSlot <==> Pool(teachers, rooms)[j].kind == "LAB"
  {
    PoolAt(teachers, rooms, j);
  }

  /** Lines 21-32: three sessions pushed per selected theory teacher, teacher by teacher. */
  method PushTheorySessions(sessionPool: seq<TimetableSlot>, theorySubjects: seq<Teacher>, rooms: seq<string>)
    returns (pool: seq<TimetableSlot>)
    requires |theorySubjects| > 0 ==> |rooms| > 0
    ensures pool == sessionPool + TheoryBlock(theorySubjects, rooms, 3 * |theorySubjects|)
  {
    pool := sessionPool;
    var index := 0;
    while index < |theorySubjects|
      invariant 0 <= index <= |theorySubjects|
      invariant pool == sessionPool + TheoryBlock(theorySubjects, rooms, 3 * index)
    {
      for i := 0 to 3
        invariant pool == sessionPool + TheoryBlock(theorySubjects, rooms, 3 * index + i)
      {
        TheoryBlockStep(theorySubjects, rooms, index, i);
        pool := pool + [TheorySession(theorySubjects[index], index, i, rooms)];
      }
      index := index + 1;
    }
  }

  /** Lines 34-47: two sessions pushed per selected lab teacher, teacher by teacher. */
  method PushLabSessions(sessionPool: seq<TimetableSlot>, labSubjects: seq<Teacher>, rooms: seq<string>)
    returns (pool: seq<TimetableSlot>)
    requires |labSubjects| > 0 ==> |rooms| > 0
    ensures pool == sessionPool + LabBlock(labSubjects, rooms, 2 * |labSubjects|)
  {
    pool := sessionPool;
    var index := 0;
    while index < |labSubjects|
      invariant 0 <= index <= |labSubjects|
      invariant pool == sessionPool + LabBlock(labSubjects, rooms, 2 * index)
    {
      for i := 0 to 2
        invariant pool == sessionPool + LabBlock(labSubjects, rooms, 2 * index + i)
      {
        LabBlockStep(labSubjects, rooms, index, i);
        pool := pool + [LabSession(labSubjects[index], index, i, rooms)];
      }
      index := index + 1;
    }
  }

  /** Lines 19-68: the pool built by pushing, phase by phase, as the source does. */
  method BuildPool(teachers: seq<Teacher>, rooms: RoomCatalog) returns (sessionPool: seq<TimetableSlot>)
    requires RoomsCover(teachers, rooms)
    ensures sessionPool == Pool(teachers, rooms)
  {
    var theorySubjects := SelectedTheory(teachers);
    var labSubjects := SelectedLab(teachers);
    sessionPool := PushTheorySessions([], theorySubjects, rooms.theory);
    sessionPool := PushLabSessions(sessionPool, labSubjects, rooms.lab);
    ghost var labPart := sessionPool;
    for i := 0 to 2
      invariant sessionPool == labPart + LibraryBlock(i)
    {
      assert LibraryBlock(i + 1) == LibraryBlock(i) + [LibrarySession(i)];
      sessionPool := sessionPool + [LibrarySession(i)];
    }
    ghost var libraryPart := sessionPool;
    for i := 0 to 2
      invariant sessionPool == libraryPart + ProjectBlock(i)
    {
      assert ProjectBlock(i + 1) == ProjectBlock(i) + [ProjectSession(i)];
      sessionPool := sessionPool + [ProjectSession(i)];
    }
    assert [] + TheoryBlock(theorySubjects, rooms.theory, 3 * |theorySubjects|)
           == TheoryBlock(theorySubjects, rooms.theory, 3 * |theorySubjects|);
  }

  // ---------------------------------------------------------------------------------------
  // The shuffle, as a caller-supplied permutation

  /** `order` lists every index below n exactly once. */
  predicate IsPermutation(order: seq<nat>, n: nat) {
    && |order| == n
    && (forall k :: 0 <= k < n ==> order[k] < n)
    && (forall j, k :: 0 <= j < k < n ==> order[j] != order[k])
  }

  /** The pool reordered: position k holds the pool's session number `order[k]`. */
  function Permute(pool: seq<TimetableSlot>, order: seq<nat>): (r: seq<TimetableSlot>)
    requires IsPermutation(order, |pool|)
    ensures |r| == |pool|
  {
    seq(|order|, k requires 0 <= k < |order| => pool[order[k]])
  }

  function Image(order: seq<nat>, m: nat): set<nat>
    requires m <= |order|
  {
    set k | 0 <= k < m :: order[k]
  }

  /** The numbers below n. */
  function Below(n: nat): (r: set<nat>)
    ensures forall v: nat :: v in r <==> v < n
    ensures |r| == n
  {
    if n == 0 then {} else
      var below := Below(n - 1);
      assert n - 1 !in below;
      assert |below + {n - 1}| == |below| + 1;
      below + {n - 1}
  }

  lemma {:induction false} ImageSize(order: seq<nat>, m: nat)
    requires m <= |order|
    requires forall j, k :: 0 <= j < k < m ==> order[j] != order[k]
    ensures |Image(order, m)| == m
  {
    if m > 0 {
      ImageSize(order, m - 1);
      assert Image(order, m) == Image(order, m - 1) + {order[m - 1]};
      assert order[m - 1] !in Image(order, m - 1);
    }
  }

  /** Pigeonhole: a permutation takes every value below n. */
  lemma PermutationOnto(order: seq<nat>, n: nat, v: nat)
    requires IsPermutation(order, n) && v < n
    ensures exists q :: 0 <= q < n && order[q] == v
  {
    ImageSize(order, n);
    if v !in Image(order, n) {
      SubsetSize(Image(order, n), Below(n) - {v});
      assert false;
    }
  }

  lemma {:induction false} SubsetSize(a: set<nat>, b: set<nat>)
    requires a <= b
    ensures |a| <= |b|
  {
    if b != {} {
      var x :| x in b;
      SubsetSize(a - {x}, b - {x});
    }
  }

  /** Removing the entry at position q of a permutation of n + 1 that holds n leaves a permutation of n. */
  lemma RemoveLargest(order: seq<nat>, n: nat, q: nat)
    requires IsPermutation(order, n + 1) && q <= n && order[q] == n
    ensures IsPermutation(order[..q] + order[q + 1..], n)
  {
    var order' := order[..q] + order[q + 1..];
    assert forall k :: 0 <= k < n ==> order'[k] == (if k < q then order[k] else order[k + 1]);
    forall k | 0 <= k < n ensures order'[k] < n {
      var k0 := if k < q then k else k + 1;
      assert order'[k] == order[k0] && k0 != q;
    }
    forall j, k | 0 <= j < k < n ensures order'[j] != order'[k] {
      var j0 := if j < q then j else j + 1;
      var k0 := if k < q then k else k + 1;
      assert order'[j] == order[j0] && order'[k] == order[k0] && j0 < k0;
    }
  }

  /** Reordering the shortened pool by the shortened order is the reordered pool with one entry cut. */
  lemma PermuteRemove(pool: seq<TimetableSlot>, order: seq<nat>, q: nat)
    requires |pool| > 0 && IsPermutation(order, |pool|) && q < |pool| && order[q] == |pool| - 1
    requires IsPermutation(order[..q] + order[q + 1..], |pool| - 1)
    ensures Permute(pool[..|pool| - 1], order[..q] + order[q + 1..])
            == Permute(pool, order)[..q] + Permute(pool, order)[q + 1..]
  {
    var order' := order[..q] + order[q + 1..];
    var p := Permute(pool, order);
    var p' := Permute(pool[..|pool| - 1], order');
    forall k | 0 <= k < |pool| - 1 ensures p'[k] == (p[..q] + p[q + 1..])[k] {
      if k < q { assert order'[k] == order[k]; } else { assert order'[k] == order[k + 1]; }
    }
  }

  /** Cutting entry q out of a sequence removes exactly one copy of it from the multiset. */
  lemma MultisetCut(p: seq<TimetableSlot>, q: nat)
    requires q < |p|
    ensures multiset(p) == multiset(p[..q] + p[q + 1..]) + multiset{p[q]}
  {
    assert p == p[..q] + [p[q]] + p[q + 1..];
  }

  /** The reordered pool holds exactly the pool's sessions, each as many times as in the pool. */
  lemma {:induction false} PermuteIsPermutation(pool: seq<TimetableSlot>, order: seq<nat>)
    requires IsPermutation(order, |pool|)
    ensures multiset(Permute(pool, order)) == multiset(pool)
  {
    var n := |pool|;
    if n > 0 {
      PermutationOnto(order, n, n - 1);
      var q :| 0 <= q < n && order[q] == n - 1;
      var order' := order[..q] + order[q + 1..];
      var pool' := pool[..n - 1];
      RemoveLargest(order, n - 1, q);
      PermuteIsPermutation(pool', order');
      PermuteRemove(pool, order, q);
      var p := Permute(pool, order);
      MultisetCut(p, q);
      assert p[q] == pool[n - 1];
      assert pool == pool' + [pool[n - 1]];
    }
  }

  // ---------------------------------------------------------------------------------------
  // Placement: the reference layout

  /** The number of cells a session asks for. */
  function Width(s: TimetableSlot): nat {
    if s.isDoubleSlot then 2 else 1
  }

  /** The cell at which session k starts: the widths of the sessions before it, added up. */
  function Offset(sessions: seq<TimetableSlot>, k: nat): nat
    requires k <= |sessions|
  {
    if k == 0 then 0 else Width(sessions[0]) + Offset(sessions[1..], k - 1)
  }

  /** The session whose cells include cell i, counting sessions from the front. */
  function Owner(sessions: seq<TimetableSlot>, i: nat): (r: Option<nat>)
    ensures r.Some? ==> r.value < |sessions|
  {
    if sessions == [] then None
    else if i < Width(sessions[0]) then Some(0)
    else match Owner(sessions[1..], i - Width(sessions[0]))
         case None => None
         case Some(k) => Some(k + 1)
  }

  /** Adding one more session moves the next start by exactly that session's width. */
  lemma {:induction false} OffsetStep(sessions: seq<TimetableSlot>, k: nat)
    requires k < |sessions|
    ensures Offset(sessions, k + 1) == Offset(sessions, k) + Width(sessions[k])
  {
    if k > 0 {
      OffsetStep(sessions[1..], k - 1);
    }
  }

  /** Starts strictly increase: a later session starts at or after the end of an earlier one. */
  lemma {:induction false} OffsetMonotone(sessions: seq<TimetableSlot>, j: nat, k: nat)
    requires j < k <= |sessions|
    ensures Offset(sessions, j + 1) <= Offset(sessions, k)
  {
    if j + 1 < k {
      OffsetMonotone(sessions, j, k - 1);
      OffsetStep(sessions, k - 1);
    }
  }

  /** Cell i belongs to session k exactly when it lies between k's start and the next start. */
  lemma {:induction false} OwnerIff(sessions: seq<TimetableSlot>, i: nat, k: nat)
    ensures Owner(sessions, i) == Some(k) <==>
              k < |sessions| && Offset(sessions, k) <= i < Offset(sessions, k + 1)
  {
    if sessions != [] {
      var w := Width(sessions[0]);
      if i >= w {
        if k > 0 {
          OwnerIff(sessions[1..], i - w, k - 1);
        }
      }
    }
  }

  /** No session owns cell i exactly when i lies at or beyond the end of the last session. */
  lemma {:induction false} OwnerNone(sessions: seq<TimetableSlot>, i: nat)
    ensures Owner(sessions, i) == None <==> i >= Offset(sessions, |sessions|)
  {
    if sessions != [] {
      var w := Width(sessions[0]);
      if i >= w {
        OwnerNone(sessions[1..], i - w);
      }
    }
  }

  /** The second cell of a double session: the same session, its course marked as continued. */
  function Continued(s: TimetableSlot): TimetableSlot {
    s.(course := s.course + ContinuationSuffix)
  }

  /**
   * What cell i of a day with L cells holds, before the day's identifier is stamped on it:
   * nothing when no session reaches it or when its session would run past the last cell,
   * otherwise the session itself (first cell) or its continuation (second cell).
   */
  function Layout(sessions: seq<TimetableSlot>, L: nat, i: nat): Option<TimetableSlot> {
    match Owner(sessions, i)
    case None => None
    case Some(k) =>
      if Offset(sessions, k + 1) > L then None
      else if i == Offset(sessions, k) then Some(sessions[k])
      else Some(Continued(sessions[k]))
  }

  /** The identifier of cell i on `day`: `${day.toLowerCase()}-${i}`. */
  function CellId(day: string, i: nat): string {
    ToLower(day) + "-" + NatToString(i)
  }

  /** A cell as placed on `day`: the session copied with the cell's identifier. */
  function Stamp(cell: Option<TimetableSlot>, day: string, i: nat): Option<TimetableSlot> {
    match cell
    case None => None
    case Some(s) => Some(s.(slotId := CellId(day, i)))
  }

  /** A day's cells: the layout with each occupied cell's identifier replaced by the day's. */
  function DayCells(sessions: seq<TimetableSlot>, L: nat, day: string): (cells: seq<Option<TimetableSlot>>)
    ensures |cells| == L
  {
    seq(L, i requires 0 <= i < L => Stamp(Layout(sessions, L, i), day, i))
  }

  /**
   * Placement of session k when it is reached at a cell of the day: a single session fills its
   * cell; a double one fills that cell and the next (course marked continued) when there is a
   * next cell, and otherwise leaves the last cell empty while still being used up.
   */
  lemma PlacementAt(sessions: seq<TimetableSlot>, L: nat, k: nat)
    requires k < |sessions| && Offset(sessions, k) < L
    ensures var i := Offset(sessions, k);
            var s := sessions[k];
            && (!s.isDoubleSlot ==>
                  Offset(sessions, k + 1) == i + 1 && Layout(sessions, L, i) == Some(s))
            && (s.isDoubleSlot && i < L - 1 ==>
                  && Offset(sessions, k + 1) == i + 2
                  && Layout(sessions, L, i) == Some(s)
                  && Layout(sessions, L, i + 1) == Some(s.(course := s.course + " (Cont.)")))
            && (s.isDoubleSlot && i == L - 1 ==>
                  Offset(sessions, k + 1) == L + 1 && Layout(sessions, L, i) == None)
  {
    var i := Offset(sessions, k);
    OffsetStep(sessions, k);
    OwnerIff(sessions, i, k);
    OwnerIff(sessions, i + 1, k);
  }

  /** No cell is claimed by two sessions: the cell ranges of distinct sessions are disjoint. */
  lemma NoCellClaimedTwice(sessions: seq<TimetableSlot>, j: nat, k: nat, i: nat)
    requires j < k < |sessions|
    ensures !(Offset(sessions, j) <= i < Offset(sessions, j + 1)
              && Offset(sessions, k) <= i < Offset(sessions, k + 1))
  {
    OffsetMonotone(sessions, j, k);
  }

  /**
   * A cell of the day stays empty exactly when the sessions ran out before it, or when it is
   * the last cell and the session reaching it is double.
   */
  lemma EmptyCell(sessions: seq<TimetableSlot>, L: nat, i: nat)
    requires i < L
    ensures Layout(sessions, L, i) == None <==>
              i >= Offset(sessions, |sessions|)
              || (i == L - 1 && exists k :: 0 <= k < |sessions| && Offset(sessions, k) == L - 1
                                           && sessions[k].isDoubleSlot)
  {
    OwnerNone(sessions, i);
    match Owner(sessions, i)
    case None =>
    case Some(k) =>
      OwnerIff(sessions, i, k);
      OffsetStep(sessions, k);
      OffsetMonotone(sessions, k, |sessions|);
      if i == L - 1 && exists k' :: 0 <= k' < |sessions| && Offset(sessions, k') == L - 1
                                   && sessions[k'].isDoubleSlot {
        var k' :| 0 <= k' < |sessions| && Offset(sessions, k') == L - 1 && sessions[k'].isDoubleSlot;
        OffsetStep(sessions, k');
        OwnerIff(sessions, i, k');
      }
  }

  /**
   * Every occupied cell holds a session of the sequence: the session itself in the cell where
   * it starts, or, in the cell after, the continuation of a double session.
   */
  lemma CellOrigin(sessions: seq<TimetableSlot>, L: nat, i: nat)
    requires Layout(sessions, L, i).Some?
    ensures exists k :: 0 <= k < |sessions| &&
              ((i == Offset(sessions, k) && Layout(sessions, L, i) == Some(sessions[k]))
               || (sessions[k].isDoubleSlot && i == Offset(sessions, k) + 1 && i < L
                   && Layout(sessions, L, i) == Some(Continued(sessions[k]))))
  {
    var k := Owner(sessions, i).value;
    OwnerIff(sessions, i, k);
    OffsetStep(sessions, k);
  }

  /** Cell identifiers of one day are distinct. */
  lemma CellIdInjective(day: string, i: nat, j: nat)
    requires CellId(day, i) == CellId(day, j)
    ensures i == j
  {
    var prefix := ToLower(day) + "-";
    assert CellId(day, i) == prefix + NatToString(i);
    assert CellId(day, j) == prefix + NatToString(j);
    assert NatToString(i) == CellId(day, i)[|prefix|..];
    assert NatToString(j) == CellId(day, j)[|prefix|..];
    NatToStringInjective(i, j);
  }

  /**
   * Every day receives the same cell contents: the cells of two days differ at most in their
   * identifiers, since the session index restarts at 0 each day.
   */
  lemma DaysDifferOnlyInCellIds(sessions: seq<TimetableSlot>, L: nat, a: string, b: string, i: nat)
    requires i < L
    ensures DayCells(sessions, L, a)[i].Some? <==> DayCells(sessions, L, b)[i].Some?
    ensures DayCells(sessions, L, a)[i].Some? ==>
              DayCells(sessions, L, a)[i].value.(slotId := "") == DayCells(sessions, L, b)[i].value.(slotId := "")
    ensures DayCells(sessions, L, a)[i].Some? ==> DayCells(sessions, L, a)[i].value.slotId == CellId(a, i)
  {
  }

  // ---------------------------------------------------------------------------------------
  // Placement: the greedy loop

  /** Lines 75-114 for one day: fill a fresh grid of L cells from the shuffled sessions. */
  method PlaceDay(sessions: seq<TimetableSlot>, L: nat, day: string) returns (daySchedule: DaySchedule)
    ensures daySchedule == DaySchedule(day, DayCells(sessions, L, day))
  {
    var slots := new Option<TimetableSlot>[L](_ => None);
    ghost var cells := DayCells(sessions, L, day);
    var sessionIndex := 0;
    var slotIndex := 0;
    assert slots[..] == cells[..0] + Nones(L);
    while slotIndex < L && sessionIndex < |sessions|
      invariant sessionIndex <= |sessions| && slotIndex <= L
      invariant slotIndex == Offset(sessions, sessionIndex)
                || (slotIndex == L && Offset(sessions, sessionIndex) == L + 1)
      invariant slots[..] == cells[..slotIndex] + Nones(L - slotIndex)
      decreases |sessions| - sessionIndex
    {
      var session := sessions[sessionIndex];
      if session.isDoubleSlot {
        if slotIndex < L - 1 {
          PlaceDouble(sessions, L, day, sessionIndex);
          slots[slotIndex] := Some(session.(slotId := CellId(day, slotIndex)));
          slots[slotIndex + 1] := Some(session.(slotId := CellId(day, slotIndex + 1),
                                                course := session.course + ContinuationSuffix));
          slotIndex := slotIndex + 2;
        } else {
          PlaceSkipped(sessions, L, day, sessionIndex);
          slotIndex := slotIndex + 1;
        }
      } else {
        PlaceSingle(sessions, L, day, sessionIndex);
        slots[slotIndex] := Some(session.(slotId := CellId(day, slotIndex)));
        slotIndex := slotIndex + 1;
      }
      sessionIndex := sessionIndex + 1;
    }
    if slotIndex < L {
      forall j | slotIndex <= j < L ensures cells[j] == None {
        OwnerNone(sessions, j);
      }
    }
    NoneTail(cells, slotIndex);
    daySchedule := DaySchedule(day, slots[..]);
  }

  /** Placing a single session at its start fills exactly the next cell of the day. */
  lemma PlaceSingle(sessions: seq<TimetableSlot>, L: nat, day: string, k: nat)
    requires k < |sessions| && Offset(sessions, k) < L && !sessions[k].isDoubleSlot
    ensures var i, cells := Offset(sessions, k), DayCells(sessions, L, day);
            && Offset(sessions, k + 1) == i + 1
            && (cells[..i] + Nones(L - i))[i := Some(sessions[k].(slotId := CellId(day, i)))]
               == cells[..i + 1] + Nones(L - i - 1)
  {
    var i, cells := Offset(sessions, k), DayCells(sessions, L, day);
    PlacementAt(sessions, L, k);
    assert cells[i] == Some(sessions[k].(slotId := CellId(day, i)));
    FillNext(cells, i, L - i);
  }

  /** Placing a double session that fits fills exactly the next two cells, the second one continued. */
  lemma PlaceDouble(sessions: seq<TimetableSlot>, L: nat, day: string, k: nat)
    requires k < |sessions| && Offset(sessions, k) < L - 1 && sessions[k].isDoubleSlot
    ensures var i, cells, s := Offset(sessions, k), DayCells(sessions, L, day), sessions[k];
            && Offset(sessions, k + 1) == i + 2
            && (cells[..i] + Nones(L - i))[i := Some(s.(slotId := CellId(day, i)))]
                 [i + 1 := Some(s.(slotId := CellId(day, i + 1), course := s.course + ContinuationSuffix))]
               == cells[..i + 2] + Nones(L - i - 2)
  {
    var i, cells, s := Offset(sessions, k), DayCells(sessions, L, day), sessions[k];
    PlacementAt(sessions, L, k);
    assert cells[i] == Some(s.(slotId := CellId(day, i)));
    assert cells[i + 1] == Some(s.(slotId := CellId(day, i + 1), course := s.course + ContinuationSuffix));
    FillNext(cells, i, L - i);
    FillNext(cells, i + 1, L - i - 1);
  }

  /** A double session that reaches the last cell leaves it empty and ends the day. */
  lemma PlaceSkipped(sessions: seq<TimetableSlot>, L: nat, day: string, k: nat)
    requires k < |sessions| && Offset(sessions, k) == L - 1 && L >= 1 && sessions[k].isDoubleSlot
    ensures var cells := DayCells(sessions, L, day);
            && Offset(sessions, k + 1) == L + 1
            && cells[..L - 1] + Nones(1) == cells[..L] + Nones(0)
  {
    var cells := DayCells(sessions, L, day);
    PlacementAt(sessions, L, k);
    assert cells[L - 1] == None;
    FillNext(cells, L - 1, 1);
  }

  /** The empty cells of a fresh day. */
  function Nones<T>(n: nat): (r: seq<Option<T>>)
    ensures |r| == n && forall j :: 0 <= j < n ==> r[j] == None
  {
    seq(n, _ => None)
  }

  /** Writing cell i of a day that is filled up to i moves the filled part one cell on. */
  lemma FillNext<T>(cells: seq<Option<T>>, i: nat, n: nat)
    requires i < |cells| && 1 <= n
    ensures (cells[..i] + Nones(n))[i := cells[i]] == cells[..i + 1] + Nones(n - 1)
    ensures cells[i] == None ==> cells[..i] + Nones(n) == cells[..i + 1] + Nones(n - 1)
  {
  }

  /** A day filled up to i whose remaining cells are all empty is the whole day. */
  lemma NoneTail<T>(cells: seq<Option<T>>, i: nat)
    requires i <= |cells| && forall j :: i <= j < |cells| ==> cells[j] == None
    ensures cells[..i] + Nones(|cells| - i) == cells
  {
  }


  /**
   * `generateTimetable`: build the pool, reorder it by `order` (the shuffle), then lay out
   * every day from the first shuffled session on.
   */
  method GenerateTimetable(teachers: seq<Teacher>, timeSlots: seq<TimeSlot>, days: seq<string>,
                           rooms: RoomCatalog, order: seq<nat>)
    returns (schedule: seq<DaySchedule>)
    requires RoomsCover(teachers, rooms)
    requires IsPermutation(order, PoolSize(teachers))
    ensures |schedule| == |days|
    ensures forall d :: 0 <= d < |days| ==>
              schedule[d] == DaySchedule(days[d], DayCells(Permute(Pool(teachers, rooms), order),
                                                           |ClassSlots(timeSlots)|, days[d]))
  {
    var classSlots := ClassSlots(timeSlots);
    var sessionPool := BuildPool(teachers, rooms);
    var shuffledSessions := Permute(sessionPool, order);
    schedule := [];
    for d := 0 to |days|
      invariant |schedule| == d
      invariant forall e :: 0 <= e < d ==>
                  schedule[e] == DaySchedule(days[e], DayCells(shuffledSessions, |classSlots|, days[e]))
    {
      var daySchedule := PlaceDay(shuffledSessions, |classSlots|, days[d]);
      schedule := schedule + [daySchedule];
    }
  }

  /**
   * Every occupied cell of a generated day is a pool session, or the continuation of one,
   * stamped with the day's cell identifier.
   */
  lemma PlacedSessionsComeFromPool(teachers: seq<Teacher>, rooms: RoomCatalog, order: seq<nat>,
                                   L: nat, day: string, i: nat)
    requires RoomsCover(teachers, rooms)
    requires IsPermutation(order, PoolSize(teachers))
    requires i < L
    requires DayCells(Permute(Pool(teachers, rooms), order), L, day)[i].Some?
    ensures exists p :: p in Pool(teachers, rooms) &&
              (DayCells(Permute(Pool(teachers, rooms), order), L, day)[i]
                 == Some(p.(slotId := CellId(day, i)))
               || DayCells(Permute(Pool(teachers, rooms), order), L, day)[i]
                 == Some(Continued(p).(slotId := CellId(day, i))))
  {
    var pool := Pool(teachers, rooms);
    var shuffled := Permute(pool, order);
    PermuteIsPermutation(pool, order);
    CellOrigin(shuffled, L, i);
    var k :| 0 <= k < |shuffled| &&
              ((i == Offset(shuffled, k) && Layout(shuffled, L, i) == Some(shuffled[k]))
               || (shuffled[k].isDoubleSlot && i == Offset(shuffled, k) + 1 && i < L
                   && Layout(shuffled, L, i) == Some(Continued(shuffled[k]))));
    assert shuffled[k] in multiset(shuffled);
    assert shuffled[k] in pool;
  }

  // ---------------------------------------------------------------------------------------
  // Display helpers

  /** `formatTimeSlot`: the clock range of class cell i, or the empty string past the last one. */
  function FormatTimeSlot(timeSlots: seq<TimeSlot>, slotIndex: nat): (r: string)
    ensures slotIndex < |ClassSlots(timeSlots)| ==>
              r == ClassSlots(timeSlots)[slotIndex].startTime + " - " + ClassSlots(timeSlots)[slotIndex].endTime
    ensures slotIndex >= |ClassSlots(timeSlots)| ==> r == ""
  {
    var classSlots := ClassSlots(timeSlots);
    if slotIndex < |classSlots| then
      var slot := classSlots[slotIndex];
      slot.startTime + " - " + slot.endTime
    else ""
  }
}

/** The colour classes of timetable cells and session badges, by session kind. */
module TimetableColors {

  /** The four session kinds that have a colour of their own. */
  predicate IsSessionKind(kind: string) {
    kind == "TH" || kind == "LAB" || kind == "LIBRARY" || kind == "PROJECT"
  }

  /** The class strings of `getSlotColor` and `getTypeColor`, one per case of their `switch`. */
  const TheorySlotColor := "bg-blue-50 border-l-4 border-l-blue-500 hover:bg-blue-100"
  const LabSlotColor := "bg-green-50 border-l-4 border-l-green-500 hover:bg-green-100"
  const LibrarySlotColor := "bg-purple-50 border-l-4 border-l-purple-500 hover:bg-purple-100"
  const ProjectSlotColor := "bg-orange-50 border-l-4 border-l-orange-500 hover:bg-orange-100"
  const DefaultSlotColor := "bg-gray-50 border-l-4 border-l-gray-300 hover:bg-gray-100"
  const DefaultTypeColor := "bg-gray-100 text-gray-800"

  /** `getSlotColor`: a cell's classes; the grey default exactly for unknown kinds. */
  function GetSlotColor(kind: string): (r: string)
    ensures r == DefaultSlotColor <==> !IsSessionKind(kind)
  {
    match kind
    case "TH" => TheorySlotColor
    case "LAB" => LabSlotColor
    case "LIBRARY" => LibrarySlotColor
    case "PROJECT" => ProjectSlotColor
    case _ => DefaultSlotColor
  }

  /** The class string of each of the four kinds' cells. */
  lemma SlotColorValues()
    ensures GetSlotColor("TH") == "bg-blue-50 border-l-4 border-l-blue-500 hover:bg-blue-100"
    ensures GetSlotColor("LAB") == "bg-green-50 border-l-4 border-l-green-500 hover:bg-green-100"
    ensures GetSlotColor("LIBRARY") == "bg-purple-50 border-l-4 border-l-purple-500 hover:bg-purple-100"
    ensures GetSlotColor("PROJECT") == "bg-orange-50 border-l-4 border-l-orange-500 hover:bg-orange-100"
  {
  }

  /** The LIBRARY and PROJECT cell strings, of equal length, differ. */
  lemma LibraryProjectSlotColorsDiffer()
    ensures GetSlotColor("LIBRARY") != GetSlotColor("PROJECT")
  {
  }

  /** The four kinds' cells are pairwise distinct: two kinds share a cell colour exactly when
      they are the same kind. */
  lemma SlotColorsDistinct(a: string, b: string)
    requires IsSessionKind(a) && IsSessionKind(b)
    ensures GetSlotColor(a) == GetSlotColor(b) <==> a == b
  {
    if a != b {
      if (a == "LIBRARY" && b == "PROJECT") || (a == "PROJECT" && b == "LIBRARY") {
        LibraryProjectSlotColorsDiffer();
      } else {
        SlotColorLength(a);
        SlotColorLength(b);
        assert |GetSlotColor(a)| != |GetSlotColor(b)|;
      }
    }
  }

  /** The length of each kind's cell string: 57, 60, 63 and 63. */
  lemma SlotColorLength(kind: string)
    requires IsSessionKind(kind)
    ensures |GetSlotColor(kind)| == if kind == "TH" then 57 else if kind == "LAB" then 60 else 63
  {
  }

  /** `getTypeColor`: a badge's classes; the grey default exactly for unknown kinds. */
  function GetTypeColor(kind: string): (r: string)
    ensures r == DefaultTypeColor <==> !IsSessionKind(kind)
  {
    match kind
    case "TH" => "bg-blue-100 text-blue-800"
    case "LAB" => "bg-green-100 text-green-800"
    case "LIBRARY" => "bg-purple-100 text-purple-800"
    case "PROJECT" => "bg-orange-100 text-orange-800"
    case _ => DefaultTypeColor
  }

  /** The class string of each of the four kinds' badges. */
  lemma TypeColorValues()
    ensures GetTypeColor("TH") == "bg-blue-100 text-blue-800"
    ensures GetTypeColor("LAB") == "bg-green-100 text-green-800"
    ensures GetTypeColor("LIBRARY") == "bg-purple-100 text-purple-800"
    ensures GetTypeColor("PROJECT") == "bg-orange-100 text-orange-800"
  {
  }

  /** The four kinds' badges are pairwise distinct: two kinds share a badge colour exactly when
      they are the same kind. */
  lemma TypeColorsDistinct(a: string, b: string)
    requires IsSessionKind(a) && IsSessionKind(b)
    ensures GetTypeColor(a) == GetTypeColor(b) <==> a == b
  {
    assert GetTypeColor("TH")[3] == 'b';
    assert GetTypeColor("LAB")[3] == 'g';
    assert GetTypeColor("LIBRARY")[3] == 'p';
    assert GetTypeColor("PROJECT")[3] == 'o';
  }
}
