/**
 A lookup scans a slice after it has released the lock, while writers shift, overwrite and append in the same
 backing array. Entries are read and written whole; each such access is one step.
 */
module DiscoverScan {
  import opened AddressList
  import opened DiscoveryCache

  /** A slice header: a backing array and a length. */
  datatype Slice = Slice(arr: nat, len: nat)

  /** Where the writer, who holds the lock, is. `i` is the loop index and `len` the local length; a shift has moved
      the entries before `p`. */
  datatype Writer =
    | Idle
    | Appending(slot: Slice, a: Address)
    | Deleting(key: string, i: nat, len: nat)
    | Shifting(key: string, i: nat, len: nat, p: nat)

  /** A lookup holds the header it took under the lock, its position, and the entries it has read. */
  datatype Reader = Waiting | Scanning(s: Slice, pos: nat, got: seq<Address>)

  datatype State = State(heap: map<nat, seq<Address>>, cur: Slice, writer: Writer, reader: Reader)

  datatype Label =
    | Overwrite(i: nat, a: Address)
    | AppendInPlace(a: Address)
    | AppendGrow(a: Address, arr: nat, spare: seq<Address>)
    | Publish
    | StartDelete(key: string)
    | DeleteStep
    | Begin
    | Read

  predicate WellFormed(s: State) {
    && s.cur.arr in s.heap && s.cur.len <= |s.heap[s.cur.arr]|
    && (match s.writer
        case Idle => true
        case Appending(slot, a) =>
          slot.arr in s.heap && slot.len == s.cur.len + 1 <= |s.heap[slot.arr]|
          && s.heap[slot.arr][..slot.len] == s.heap[s.cur.arr][..s.cur.len] + [a]
        case Deleting(_, i, len) => len <= s.cur.len && i <= len + 1
        case Shifting(_, i, len, p) => i <= p < len <= s.cur.len)
    && (s.reader.Scanning? ==>
          s.reader.s.arr in s.heap && s.reader.s.len <= |s.heap[s.reader.s.arr]| && s.reader.pos <= s.reader.s.len)
  }

  function List(s: State): seq<Address>
    requires WellFormed(s)
  {
    s.heap[s.cur.arr][..s.cur.len]
  }

  predicate Enabled(s: State, x: Label)
    requires WellFormed(s)
  {
    match x
    case Overwrite(i, a) =>
      s.writer.Idle? && i < s.cur.len && List(s)[i].key == a.key && forall j | 0 <= j < i :: List(s)[j].key != a.key
    case AppendInPlace(a) => s.writer.Idle? && !HasKey(List(s), a.key) && s.cur.len < |s.heap[s.cur.arr]|
    case AppendGrow(a, arr, _) =>
      s.writer.Idle? && !HasKey(List(s), a.key) && s.cur.len == |s.heap[s.cur.arr]| && arr !in s.heap
    case Publish => s.writer.Appending? || (s.writer.Deleting? && s.writer.i >= s.writer.len)
    case StartDelete(_) => s.writer.Idle?
    case DeleteStep => s.writer.Shifting? || (s.writer.Deleting? && s.writer.i < s.writer.len)
    case Begin => s.writer.Idle? && s.reader.Waiting?
    case Read => s.reader.Scanning? && s.reader.pos < s.reader.s.len
  }

  function Write(s: State, arr: nat, i: nat, a: Address): State
    requires arr in s.heap && i < |s.heap[arr]|
  {
    s.(heap := s.heap[arr := s.heap[arr][i := a]])
  }

  function Step(s: State, x: Label): State
    requires WellFormed(s) && Enabled(s, x)
  {
    match x
    case Overwrite(i, a) => Write(s, s.cur.arr, i, a)
    case AppendInPlace(a) =>
      Write(s, s.cur.arr, s.cur.len, a).(writer := Appending(Slice(s.cur.arr, s.cur.len + 1), a))
    case AppendGrow(a, arr, spare) =>
      s.(heap := s.heap[arr := List(s) + [a] + spare], writer := Appending(Slice(arr, s.cur.len + 1), a))
    case Publish =>
      s.(cur := if s.writer.Appending? then s.writer.slot else Slice(s.cur.arr, s.writer.len), writer := Idle)
    case StartDelete(key) => s.(writer := Deleting(key, 0, s.cur.len))
    case DeleteStep =>
      (match s.writer
       case Deleting(key, i, len) =>
         if s.heap[s.cur.arr][i].key == key then s.(writer := Shifting(key, i, len, i))
         else s.(writer := Deleting(key, i + 1, len))
       case Shifting(key, i, len, p) =>
         if p + 1 == len then s.(writer := Deleting(key, i + 1, len - 1))
         else Write(s, s.cur.arr, p, s.heap[s.cur.arr][p + 1]).(writer := Shifting(key, i, len, p + 1)))
    case Begin => s.(reader := Scanning(s.cur, 0, []))
    case Read =>
      var r := s.reader;
      s.(reader := Scanning(r.s, r.pos + 1, r.got + [s.heap[r.s.arr][r.pos]]))
  }

  lemma StepKeepsWellFormed(s: State, x: Label)
    requires WellFormed(s) && Enabled(s, x)
    ensures WellFormed(Step(s, x))
  {
  }

  /** The list the writer will have published when it is done. */
  function Target(s: State): seq<Address>
    requires WellFormed(s)
  {
    var a := s.heap[s.cur.arr];
    match s.writer
    case Idle => List(s)
    case Appending(_, e) => List(s) + [e]
    case Deleting(key, i, len) => SkippingFrom(a[..len], i, key)
    case Shifting(key, i, len, p) => SkippingFrom(a[..p] + a[p + 1..len], i + 1, key)
  }

  lemma SettingAimsAtTheNewList(s: State, x: Label)
    requires WellFormed(s) && Enabled(s, x) && (x.Overwrite? || x.AppendInPlace? || x.AppendGrow?)
    ensures WellFormed(Step(s, x)) && Target(Step(s, x)) == Set(List(s), x.a)
  {
    StepKeepsWellFormed(s, x);
    if x.Overwrite? {
      SetAtFirst(List(s), x.a, x.i);
      assert List(Step(s, x)) == List(s)[x.i := x.a];
    } else {
      SetShape(List(s), x.a);
      assert List(Step(s, x)) == List(s);
    }
  }

  lemma PublishingReachesTheAim(s: State)
    requires WellFormed(s) && Enabled(s, Publish)
    ensures WellFormed(Step(s, Publish)) && List(Step(s, Publish)) == Target(s)
  {
    if s.writer.Deleting? {
      var l := s.heap[s.cur.arr][..s.writer.len];
      assert l[..|l|] + [] == l && l[|l|..] == [];
    }
  }

  lemma ReadingKeepsTheAim(s: State, x: Label)
    requires WellFormed(s) && Enabled(s, x) && (x.Begin? || x.Read?)
    ensures WellFormed(Step(s, x)) && Target(Step(s, x)) == Target(s)
  {
    StepKeepsWellFormed(s, x);
  }

  /** The steps of a writer, whatever a lookup does in between, add up to the list operations: setting and deleting
      aim at the new list, every later step keeps the aim, and once the lock is released the list is the aim. */
  lemma WritersPerformTheListOperations(s: State, x: Label)
    requires WellFormed(s) && Enabled(s, x)
    ensures WellFormed(Step(s, x))
    ensures Target(Step(s, x)) ==
              match x
              case Overwrite(_, a) => Set(List(s), a)
              case AppendInPlace(a) => Set(List(s), a)
              case AppendGrow(a, _, _) => Set(List(s), a)
              case StartDelete(key) => RemoveSkipping(List(s), key)
              case _ => Target(s)
    ensures Step(s, x).writer.Idle? ==> Target(Step(s, x)) == List(Step(s, x))
  {
    StepKeepsWellFormed(s, x);
    match x
    case StartDelete(key) => assert List(s)[0..] == List(s);
    case Publish => PublishingReachesTheAim(s);
    case DeleteStep => DeleteStepKeepsAim(s);
    case Begin => ReadingKeepsTheAim(s, x);
    case Read => ReadingKeepsTheAim(s, x);
    case _ => SettingAimsAtTheNewList(s, x);
  }

  lemma DeleteStepKeepsAim(s: State)
    requires WellFormed(s) && Enabled(s, DeleteStep)
    ensures WellFormed(Step(s, DeleteStep)) && Target(Step(s, DeleteStep)) == Target(s)
  {
    StepKeepsWellFormed(s, DeleteStep);
    if s.writer.Deleting? {
      ComparingKeepsTarget(s);
    } else {
      ShiftingKeepsTarget(s);
    }
  }

  lemma ComparingKeepsTarget(s: State)
    requires WellFormed(s) && Enabled(s, DeleteStep) && WellFormed(Step(s, DeleteStep)) && s.writer.Deleting?
    ensures Target(Step(s, DeleteStep)) == Target(s)
  {
    ComparingKeepsAim(s.heap[s.cur.arr], s.writer.key, s.writer.i, s.writer.len);
  }

  lemma ShiftingKeepsTarget(s: State)
    requires WellFormed(s) && Enabled(s, DeleteStep) && WellFormed(Step(s, DeleteStep)) && s.writer.Shifting?
    ensures Target(Step(s, DeleteStep)) == Target(s)
  {
    hide SkippingFrom, RemoveSkipping, List;
    var a, w := s.heap[s.cur.arr], s.writer;
    ShiftingKeepsAim(a, w.p, w.len);
    var rest := a[..w.p] + a[w.p + 1..w.len];
    if w.p + 1 == w.len {
      assert Target(Step(s, DeleteStep)) == SkippingFrom(rest, w.i + 1, w.key);
    } else {
      var b := a[w.p := a[w.p + 1]];
      assert Step(s, DeleteStep).heap[s.cur.arr] == b;
      assert b[..w.p + 1] + b[w.p + 2..w.len] == rest;
    }
  }

  /** Looking at one entry: a removal goes on without it from the next index, and otherwise the entry is passed. */
  lemma ComparingKeepsAim(a: seq<Address>, key: string, i: nat, len: nat)
    requires i < len <= |a|
    ensures SkippingFrom(a[..len], i, key) ==
            SkippingFrom(if a[i].key == key then a[..i] + a[i + 1..len] else a[..len], i + 1, key)
  {
    SkippingStep(a[..len], i, key);
    assert a[..len][..i] + a[..len][i + 1..] == a[..i] + a[i + 1..len];
  }

  /** Moving one entry down leaves the list without the entry at `p` as it is; at the end only the length is left to
      change. */
  lemma ShiftingKeepsAim(a: seq<Address>, p: nat, len: nat)
    requires p < len <= |a|
    ensures p + 1 == len ==> a[..p] + a[p + 1..len] == a[..len - 1]
    ensures p + 1 < len ==> var b := a[p := a[p + 1]]; b[..p + 1] + b[p + 2..len] == a[..p] + a[p + 1..len]
  {
  }

  /** The entries in the list, or on their way into it. */
  function Live(s: State): set<Address>
    requires WellFormed(s)
  {
    (set a | a in List(s)) + (if s.writer.Appending? then {s.writer.a} else {})
  }

  ghost predicate ValidRun(s: State, run: seq<Label>)
    requires WellFormed(s)
    decreases |run|
  {
    run != [] ==>
      && Enabled(s, run[0])
      && (StepKeepsWellFormed(s, run[0]); ValidRun(Step(s, run[0]), run[1..]))
  }

  ghost function Exec(s: State, run: seq<Label>): (r: State)
    requires WellFormed(s) && ValidRun(s, run)
    ensures WellFormed(r)
    decreases |run|
  {
    if run == [] then s
    else
      StepKeepsWellFormed(s, run[0]);
      Exec(Step(s, run[0]), run[1..])
  }

  /** Everything live at some moment of the run, first and last included. */
  ghost function LiveDuring(s: State, run: seq<Label>): set<Address>
    requires WellFormed(s) && ValidRun(s, run)
    decreases |run|
  {
    if run == [] then Live(s)
    else
      StepKeepsWellFormed(s, run[0]);
      Live(s) + LiveDuring(Step(s, run[0]), run[1..])
  }

  /** Every cell the lookup may still read, and everything it has read, was live at some moment since it began. */
  ghost predicate Covered(s: State, seen: set<Address>)
    requires WellFormed(s)
  {
    && s.reader.Scanning?
    && (forall i | 0 <= i < s.reader.s.len :: s.heap[s.reader.s.arr][i] in seen)
    && (forall a | a in s.reader.got :: a in seen)
  }

  lemma StepKeepsCovered(s: State, x: Label, seen: set<Address>)
    requires WellFormed(s) && Enabled(s, x) && Covered(s, seen) && Live(s) <= seen
    ensures WellFormed(Step(s, x)) && Covered(Step(s, x), seen + Live(Step(s, x)))
  {
    StepKeepsWellFormed(s, x);
    var s' := Step(s, x);
    match x
    case Overwrite(i, a) => assert List(s')[i] == a;
    case DeleteStep =>
      if s.writer.Shifting? && s.writer.p + 1 < s.writer.len {
        assert List(s)[s.writer.p + 1] in Live(s);
      }
    case _ =>
  }

  lemma {:induction false} RunKeepsCovered(s: State, run: seq<Label>, seen: set<Address>)
    requires WellFormed(s) && ValidRun(s, run) && Covered(s, seen) && Live(s) <= seen
    ensures Covered(Exec(s, run), seen + LiveDuring(s, run))
    decreases |run|
  {
    if run != [] {
      StepKeepsCovered(s, run[0], seen);
      var s' := Step(s, run[0]);
      RunKeepsCovered(s', run[1..], seen + Live(s'));
      assert seen + Live(s') + LiveDuring(s', run[1..]) <= seen + LiveDuring(s, run) by {
        LiveAtStart(s', run[1..]);
      }
    } else {
      assert seen + LiveDuring(s, run) == seen;
    }
  }

  lemma {:induction false} LiveAtStart(s: State, run: seq<Label>)
    requires WellFormed(s) && ValidRun(s, run)
    ensures Live(s) <= LiveDuring(s, run)
  {
  }

  lemma {:induction false} PickedComeFromAccepted(got: seq<Address>, env: string, labels: seq<string>, url: string)
    requires url in Pick(got, env, labels)
    ensures exists a :: a in got && Accepts(a, env, labels) && a.address == url
  {
    if Accepts(got[0], env, labels) && got[0].address == url {
    } else {
      PickedComeFromAccepted(got[1..], env, labels, url);
    }
  }

  /** Whatever writers do while a lookup scans, every address it returns belongs to a matching entry that was in the
      list, or being added to it, at some moment of the call. */
  lemma LookupsReturnLiveAddresses(s: State, run: seq<Label>, env: string, labels: seq<string>, url: string)
    requires WellFormed(s) && Enabled(s, Begin)
    requires WellFormed(Step(s, Begin)) && ValidRun(Step(s, Begin), run)
    requires Exec(Step(s, Begin), run).reader.Scanning?
    requires url in Pick(Exec(Step(s, Begin), run).reader.got, env, labels)
    ensures exists a :: a in LiveDuring(Step(s, Begin), run) && Accepts(a, env, labels) && a.address == url
  {
    var s0 := Step(s, Begin);
    assert Covered(s0, Live(s0)) by {
      assert forall i | 0 <= i < s0.reader.s.len :: s0.heap[s0.reader.s.arr][i] == List(s0)[i];
    }
    RunKeepsCovered(s0, run, Live(s0));
    LiveAtStart(s0, run);
    PickedComeFromAccepted(Exec(s0, run).reader.got, env, labels, url);
  }

  // ----- what a lookup can miss -----

  /** The entry is in the list at every moment of the run. */
  ghost predicate PresentDuring(s: State, run: seq<Label>, a: Address)
    requires WellFormed(s) && ValidRun(s, run)
    decreases |run|
  {
    a in List(s) && (run != [] ==> (StepKeepsWellFormed(s, run[0]); PresentDuring(Step(s, run[0]), run[1..], a)))
  }

  predicate NoDeletion(run: seq<Label>) {
    forall x | x in run :: !x.StartDelete?
  }

  /** Entry `a` is at index `i` of the list, and there the lookup has read it or will read it: its array is either the
      current one, or one that nobody writes any more. */
  predicate WillBeRead(s: State, a: Address, i: nat)
    requires WellFormed(s)
  {
    && s.reader.Scanning? && i < s.reader.s.len && i < s.cur.len && UniqueKeys(List(s)) && List(s)[i] == a
    && (s.writer.Idle? ||
        (s.writer.Appending? && !HasKey(List(s), s.writer.a.key)
         && (s.writer.slot.arr == s.cur.arr || s.writer.slot.arr != s.reader.s.arr)))
    && s.heap[s.reader.s.arr][i] == a
    && (i < s.reader.pos ==> a in s.reader.got)
  }

  lemma StepKeepsWillBeRead(s: State, x: Label, a: Address, i: nat)
    requires WellFormed(s) && Enabled(s, x) && WillBeRead(s, a, i) && !x.StartDelete?
    requires WellFormed(Step(s, x)) && a in List(Step(s, x))
    ensures WillBeRead(Step(s, x), a, i)
  {
    match x {
      case Overwrite(j, b) => OverwriteKeepsWillBeRead(s, j, b, a, i);
      case AppendInPlace(b) => assert List(Step(s, x)) == List(s);
      case AppendGrow(b, arr, spare) => assert List(Step(s, x)) == List(s);
      case Publish => PublishKeepsWillBeRead(s, a, i);
      case Read => assert List(Step(s, x)) == List(s);
      case _ =>
    }
  }

  lemma OverwriteKeepsWillBeRead(s: State, j: nat, b: Address, a: Address, i: nat)
    requires WellFormed(s) && Enabled(s, Overwrite(j, b)) && WillBeRead(s, a, i)
    requires WellFormed(Step(s, Overwrite(j, b))) && a in List(Step(s, Overwrite(j, b)))
    ensures WillBeRead(Step(s, Overwrite(j, b)), a, i)
  {
    var s' := Step(s, Overwrite(j, b));
    assert List(s') == List(s)[j := b];
    assert i == j ==> b == a;
  }

  lemma PublishKeepsWillBeRead(s: State, a: Address, i: nat)
    requires WellFormed(s) && Enabled(s, Publish) && WillBeRead(s, a, i)
    ensures WellFormed(Step(s, Publish)) && WillBeRead(Step(s, Publish), a, i)
  {
    StepKeepsWellFormed(s, Publish);
    var l, l' := List(s), List(Step(s, Publish));
    assert l' == l + [s.writer.a];
    forall m, n | 0 <= m < n < |l'| ensures l'[m].key != l'[n].key {
      assert n == |l| ==> l'[m] == l[m];
    }
  }

  lemma {:induction false} RunKeepsWillBeRead(s: State, run: seq<Label>, a: Address, i: nat)
    requires WellFormed(s) && ValidRun(s, run) && WillBeRead(s, a, i) && NoDeletion(run) && PresentDuring(s, run, a)
    ensures WillBeRead(Exec(s, run), a, i)
    decreases |run|
  {
    if run != [] {
      var x := run[0];
      assert x in run && forall y | y in run[1..] :: y in run;
      StepKeepsWellFormed(s, x);
      PresentAtStart(Step(s, x), run[1..], a);
      StepKeepsWillBeRead(s, x, a, i);
      RunKeepsWillBeRead(Step(s, x), run[1..], a, i);
    }
  }

  lemma PresentAtStart(s: State, run: seq<Label>, a: Address)
    requires WellFormed(s) && ValidRun(s, run) && PresentDuring(s, run, a)
    ensures a in List(s)
  {
  }

  /** Without a deletion a lookup that scans to its end has read every entry that was in the list all the time,
      whatever is overwritten, appended or moved to a larger array meanwhile. */
  lemma WithoutDeletionNothingIsMissed(s: State, run: seq<Label>, a: Address)
    requires WellFormed(s) && Enabled(s, Begin) && UniqueKeys(List(s))
    requires WellFormed(Step(s, Begin)) && ValidRun(Step(s, Begin), run) && NoDeletion(run)
    requires PresentDuring(Step(s, Begin), run, a)
    requires var r := Exec(Step(s, Begin), run).reader; r.Scanning? && r.pos == r.s.len
    ensures a in Exec(Step(s, Begin), run).reader.got
  {
    var s0 := Step(s, Begin);
    PresentAtStart(s0, run, a);
    var i :| 0 <= i < |List(s0)| && List(s0)[i] == a;
    assert List(s0) == List(s);
    RunKeepsWillBeRead(s0, run, a, i);
  }
}
