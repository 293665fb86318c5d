/** Which target the controller accepts, run after run: dialAndVerify and main of cmd/controller/main.go. */
module Pinning {
  import opened KnownHosts
  import opened Wrappers

  /**
   * One run of the controller, as far as trust goes: its flags, the fingerprints that the main and the
   * clipboard connection present, what the user answers, and how the outside world lets things end.
   */
  datatype Attempt = Attempt(
    addr: string,
    pinnedFlag: string,          // -fingerprint, normalised; empty when absent
    autoYes: bool,
    answersYes: bool,
    presented: Option<string>,
    persisting: Persisting,
    handshakeCompletes: bool,    // what follows verification: the TLS handshake and authentication
    edgeMode: bool,
    clipPresented: Option<string>)

  datatype Verdict = Trusted | NoCertificate | FingerprintChanged | FlagMismatch | RefusedByUser | NotPersisted

  /** A verdict, and the fingerprint newly pinned on the way to it. */
  function Verify(stored: Option<string>, a: Attempt): (Verdict, Option<string>) {
    if a.presented.None? then (NoCertificate, None)
    else
      var got := a.presented.value;
      if stored.Some? then (if got == stored.value then Trusted else FingerprintChanged, None)
      else if a.pinnedFlag != "" && got != a.pinnedFlag then (FlagMismatch, None)
      else if a.pinnedFlag == "" && !a.autoYes && !a.answersYes then (RefusedByUser, None)
      else (if a.persisting.Written? then Trusted else NotPersisted, Some(got))
  }

  /** The fingerprints a run accepts on its two connections. */
  datatype Accepted = Accepted(main: Option<string>, clip: Option<string>)

  const NOTHING := Accepted(None, None)

  /** What one run accepts, and the file it leaves. */
  function RunOnce(file: File, a: Attempt): (Accepted, File) {
    if file.Load().None? then (NOTHING, file)
    else
      var entries := file.Load().value;
      var (verdict, pin) := Verify(if a.addr in entries then Some(entries[a.addr]) else None, a);
      var entries' := if pin.Some? then entries[a.addr := pin.value] else entries;
      var file' := if pin.Some? then a.persisting.Leaves(file, entries') else file;
      if !verdict.Trusted? || !a.handshakeCompletes then (NOTHING, file')
      else
        var pinned := if a.addr in entries' then Some(entries'[a.addr]) else None;
        var clip := if a.edgeMode && pinned.Some? && a.clipPresented == pinned then pinned else None;
        (Accepted(a.presented, clip), file')
  }

  /** The VerifyConnection closure of dialAndVerify. */
  method VerifyConnection(store: Store, a: Attempt) returns (verdict: Verdict)
    modifies store, store.path
    ensures var (v, pin) := Verify(old(store.Lookup(a.addr)), a);
            && verdict == v
            && store.entries == (if pin.Some? then old(store.entries)[a.addr := pin.value] else old(store.entries))
            && store.path.file ==
               (if pin.Some? then a.persisting.Leaves(old(store.path.file), store.entries) else old(store.path.file))
  {
    if a.presented.None? {
      return NoCertificate;
    }
    var got := a.presented.value;
    var stored := store.Lookup(a.addr);
    if stored.Some? {
      if got != stored.value {
        return FingerprintChanged;
      }
      return Trusted;
    }
    if a.pinnedFlag != "" {
      if got != a.pinnedFlag {
        return FlagMismatch;
      }
      var ok := store.Trust(a.addr, got, a.persisting);
      return if ok then Trusted else NotPersisted;
    }
    if !a.autoYes {
      if !a.answersYes {
        return RefusedByUser;
      }
    }
    var ok := store.Trust(a.addr, got, a.persisting);
    verdict := if ok then Trusted else NotPersisted;
  }

  /** The VerifyConnection closure of pinnedTLSConfig: exactly the given fingerprint. */
  method VerifyPinned(fp: string, presented: Option<string>) returns (ok: bool)
    ensures ok <==> presented == Some(fp)
  {
    if presented.None? {
      return false;
    }
    ok := presented.value == fp;
  }

  /** One run: open the store, verify the main connection, and in edge mode pin the clipboard's. */
  method RunController(path: Path, a: Attempt) returns (accepted: Accepted)
    modifies path
    ensures (accepted, path.file) == RunOnce(old(path.file), a)
  {
    accepted := NOTHING;
    var store := OpenKnownHosts(path);
    if store.None? {
      return;
    }
    var verdict := VerifyConnection(store.value, a);
    if !verdict.Trusted? || !a.handshakeCompletes {
      return;
    }
    accepted := Accepted(a.presented, None);
    if a.edgeMode {
      var fp := store.value.Lookup(a.addr);
      if fp.Some? {
        var ok := VerifyPinned(fp.value, a.clipPresented);
        if ok {
          accepted := Accepted(a.presented, a.clipPresented);
        }
      }
    }
  }

  // ---------------------------------------------------------------- one run

  /** The store's file can be opened: it is absent, of no length, or a stored map. */
  predicate Opens(file: File) {
    file.Missing? || file.Empty? || file.Stored?
  }

  /** This fingerprint is stored for the address. */
  predicate StoresPin(file: File, addr: string, fp: string) {
    file.Stored? && addr in file.entries && file.entries[addr] == fp
  }

  predicate StoresNone(file: File, addr: string) {
    file.Stored? ==> addr !in file.entries
  }

  /** A new pin is agreed to: by -fingerprint if it is given, and else by -yes or by the user. */
  predicate Agreed(a: Attempt, fp: string) {
    if a.pinnedFlag == "" then a.autoYes || a.answersYes else a.pinnedFlag == fp
  }

  /** The run pins this fingerprint: nothing is stored for the address, and it is agreed to. */
  predicate PinsNow(file: File, a: Attempt, fp: string) {
    Opens(file) && a.presented == Some(fp) && StoresNone(file, a.addr) && Agreed(a, fp)
  }

  /**
   * A target is accepted exactly if the store opens, it presents this fingerprint, which is the one stored
   * for its address or is agreed to and written now, and what follows completes.
   */
  lemma AcceptedExactly(file: File, a: Attempt, fp: string)
    ensures RunOnce(file, a).0.main == Some(fp) <==>
            && Opens(file) && a.presented == Some(fp) && a.handshakeCompletes
            && (StoresPin(file, a.addr, fp) || (PinsNow(file, a, fp) && a.persisting.Written?))
  {
  }

  /** The clipboard connection is accepted exactly if, in edge mode, it too presents what was accepted. */
  lemma ClipboardExactly(file: File, a: Attempt, fp: string)
    ensures RunOnce(file, a).0.clip == Some(fp) <==>
            a.edgeMode && RunOnce(file, a).0.main == Some(fp) && a.clipPresented == Some(fp)
  {
  }

  /** What a file stores. */
  predicate HasEntries(file: File, entries: map<string, string>) {
    if file.Stored? then file.entries == entries else entries == map[]
  }

  /** The file changes only if the run pins: then to the entries with the pin, to nothing, or to garbage,
      as the write ends. */
  lemma PinsExactly(file: File, a: Attempt, entries: map<string, string>)
    requires HasEntries(file, entries)
    ensures var file' := RunOnce(file, a).1;
            if a.presented.None? || !PinsNow(file, a, a.presented.value) then file' == file
            else
              match a.persisting
              case Written => file' == Stored(entries[a.addr := a.presented.value])
              case Untouched => file' == file
              case Truncated => file' == Empty
              case CutShort => file' == Garbled
  {
  }

  /** What the closure of dialAndVerify answers, case by case. */
  lemma VerdictExactly(stored: Option<string>, a: Attempt, fp: string)
    requires a.presented == Some(fp)
    ensures var (verdict, pin) := Verify(stored, a);
            && (verdict == FingerprintChanged <==> stored.Some? && stored.value != fp)
            && (verdict == FlagMismatch <==> stored.None? && a.pinnedFlag != "" && a.pinnedFlag != fp)
            && (verdict == RefusedByUser <==> stored.None? && a.pinnedFlag == "" && !Agreed(a, fp))
            && (verdict == NotPersisted <==> stored.None? && Agreed(a, fp) && !a.persisting.Written?)
            && (pin == Some(fp) <==> stored.None? && Agreed(a, fp)) && (pin.None? || pin == Some(fp))
  {
  }

  /**
   * With -fingerprint, an accepted connection presented that fingerprint, exactly unless another one was
   * already stored: the flag is not looked at once an address is pinned.
   */
  lemma FlagHoldsUnlessStored(file: File, a: Attempt)
    requires RunOnce(file, a).0.main.Some? && a.pinnedFlag != ""
    ensures var entries := file.Load().value;
            RunOnce(file, a).0.main == Some(a.pinnedFlag) <==> (a.addr in entries ==> entries[a.addr] == a.pinnedFlag)
  {
  }

  // ---------------------------------------------------------------- over every sequence of runs

  /** The run opens a store that is not empty, has a fingerprint to pin, and its write ends truncated. */
  predicate Empties(file: File, a: Attempt) {
    && file.Load().Some? && !file.Empty? && a.persisting.Truncated?
    && var entries := file.Load().value;
       Verify(if a.addr in entries then Some(entries[a.addr]) else None, a).1.Some?
  }

  /** Such a run and no other empties the file. */
  lemma OnlyTruncationEmpties(file: File, a: Attempt)
    ensures Empties(file, a) <==> RunOnce(file, a).1.Empty? && !file.Empty?
  {
  }

  datatype History = History(start: File, attempts: seq<Attempt>) {
    /** The file before run i. */
    function FileAt(i: nat): File
      requires i <= |attempts|
    {
      if i == 0 then start else RunOnce(FileAt(i - 1), attempts[i - 1]).1
    }

    function AcceptedAt(i: nat): Accepted
      requires i < |attempts|
    {
      RunOnce(FileAt(i), attempts[i]).0
    }

    /** Run i emptied the store by failing to write it. */
    predicate Emptied(i: nat)
      requires i < |attempts|
    {
      Empties(FileAt(i), attempts[i])
    }

    predicate NotEmptiedIn(from: nat, to: nat)
      requires to <= |attempts|
    {
      forall k | from <= k < to :: !Emptied(k)
    }
  }

  /** A file that has this pin, or that no run can open any more. */
  predicate Holds(file: File, addr: string, fp: string) {
    file.Load().None? || (file.Stored? && addr in file.entries && file.entries[addr] == fp)
  }

  lemma AcceptedIsHeld(file: File, a: Attempt)
    requires RunOnce(file, a).0.main.Some?
    ensures Holds(RunOnce(file, a).1, a.addr, RunOnce(file, a).0.main.value)
  {
  }

  lemma HeldIsKept(file: File, a: Attempt, addr: string, fp: string)
    requires Holds(file, addr, fp) && !Empties(file, a)
    ensures Holds(RunOnce(file, a).1, addr, fp)
    ensures RunOnce(file, a).0.main.Some? && a.addr == addr ==> RunOnce(file, a).0.main == Some(fp)
  {
  }

  /**
   * Until a failed write empties the store, a pin on disk stays through every run, whatever the address,
   * or no later run can open the store.
   */
  lemma {:induction false} PinsAreKept(h: History, i: nat, j: nat, addr: string, fp: string)
    requires i <= j <= |h.attempts| && Holds(h.FileAt(i), addr, fp) && h.NotEmptiedIn(i, j)
    ensures Holds(h.FileAt(j), addr, fp)
  {
    if i < j {
      PinsAreKept(h, i, j - 1, addr, fp);
      assert !h.Emptied(j - 1);
      HeldIsKept(h.FileAt(j - 1), h.attempts[j - 1], addr, fp);
    }
  }

  lemma PinIsHeld(h: History, i: nat, j: nat)
    requires i < j <= |h.attempts| && h.AcceptedAt(i).main.Some? && h.NotEmptiedIn(i + 1, j)
    ensures Holds(h.FileAt(j), h.attempts[i].addr, h.AcceptedAt(i).main.value)
  {
    AcceptedIsHeld(h.FileAt(i), h.attempts[i]);
    PinsAreKept(h, i + 1, j, h.attempts[i].addr, h.AcceptedAt(i).main.value);
  }

  /**
   * Over any sequence of runs, whatever is presented, answered or passed as flags, the connections
   * accepted for an address present one fingerprint, as long as no failed write in between emptied the
   * store.
   */
  lemma OneFingerprintPerAddress(h: History, i: nat, j: nat)
    requires i < j < |h.attempts| && h.attempts[i].addr == h.attempts[j].addr
    requires h.AcceptedAt(i).main.Some? && h.AcceptedAt(j).main.Some?
    requires h.NotEmptiedIn(i + 1, j)
    ensures h.AcceptedAt(i).main == h.AcceptedAt(j).main
  {
    PinIsHeld(h, i, j);
  }

  /** In run j this fingerprint was presented for this address, agreed to, and written. */
  predicate AgreedIn(h: History, j: nat, addr: string, fp: string)
    requires j < |h.attempts|
  {
    var a := h.attempts[j];
    a.addr == addr && a.presented == Some(fp) && Agreed(a, fp) && a.persisting.Written?
  }

  predicate AgreedBefore(h: History, n: nat, addr: string, fp: string)
    requires n <= |h.attempts|
  {
    exists j | 0 <= j < n :: AgreedIn(h, j, addr, fp)
  }

  lemma StoredNow(file: File, a: Attempt, addr: string, fp: string)
    requires StoresPin(RunOnce(file, a).1, addr, fp)
    ensures StoresPin(file, addr, fp) ||
            (a.addr == addr && a.presented == Some(fp) && Agreed(a, fp) && a.persisting.Written?)
  {
  }

  /** Every pin was there from the start, or was agreed to in a run for its address. */
  lemma {:induction false} StoredWasAgreedTo(h: History, n: nat, addr: string, fp: string)
    requires n <= |h.attempts| && StoresPin(h.FileAt(n), addr, fp)
    ensures StoresPin(h.start, addr, fp) || AgreedBefore(h, n, addr, fp)
  {
    if n > 0 {
      StoredNow(h.FileAt(n - 1), h.attempts[n - 1], addr, fp);
      if StoresPin(h.FileAt(n - 1), addr, fp) {
        StoredWasAgreedTo(h, n - 1, addr, fp);
      } else {
        assert AgreedIn(h, n - 1, addr, fp);
      }
    }
  }

  /**
   * Whatever happens to the store in between, no fingerprint is ever accepted for an address, on either
   * connection, unless it was stored for it from the start or agreed to in this run or an earlier one.
   */
  lemma {:induction false} AcceptedWasAgreedTo(h: History, i: nat, fp: string)
    requires i < |h.attempts| && (h.AcceptedAt(i).main == Some(fp) || h.AcceptedAt(i).clip == Some(fp))
    ensures StoresPin(h.start, h.attempts[i].addr, fp) || AgreedBefore(h, i + 1, h.attempts[i].addr, fp)
  {
    var file, a := h.FileAt(i), h.attempts[i];
    ClipboardExactly(file, a, fp);
    AcceptedExactly(file, a, fp);
    if StoresPin(file, a.addr, fp) {
      StoredWasAgreedTo(h, i, a.addr, fp);
    } else {
      assert AgreedIn(h, i, a.addr, fp);
    }
  }

  /** A store whose file cannot be read, or is garbled, stays so, and no later run accepts anything. */
  lemma {:induction false} ClosedForGood(h: History, i: nat, j: nat)
    requires i <= j < |h.attempts| && !Opens(h.FileAt(i))
    ensures h.FileAt(j) == h.FileAt(i) && h.AcceptedAt(j).main.None? && h.AcceptedAt(j).clip.None?
  {
    if i < j {
      ClosedForGood(h, i, j - 1);
    }
  }

  /** A store emptied by a failed write forgets every pin: any fingerprint is then accepted with -yes. */
  lemma EmptiedStoreForgets(h: History, k: nat, fp: string, a: Attempt)
    requires k < |h.attempts| && h.Emptied(k)
    requires a.autoYes && a.pinnedFlag == "" && a.presented == Some(fp) && a.persisting.Written? && a.handshakeCompletes
    ensures RunOnce(h.FileAt(k + 1), a).0.main == Some(fp)
  {
  }

  /** And a failed write does empty it: pin one address, fail to pin a second, and the first is free. */
  lemma FailedWriteForgets(a: Attempt, b: Attempt)
    requires a.autoYes && a.pinnedFlag == "" && a.persisting.Written? && a.presented.Some? && a.handshakeCompletes
    requires b.autoYes && b.pinnedFlag == "" && b.persisting.Truncated? && b.presented.Some? && b.addr != a.addr
    ensures var h := History(Missing, [a, b, a.(presented := Some("other"))]);
            h.AcceptedAt(0).main == a.presented && h.Emptied(1) && h.AcceptedAt(2).main == Some("other")
  {
    var h := History(Missing, [a, b, a.(presented := Some("other"))]);
    assert h.FileAt(1) == RunOnce(h.FileAt(0), a).1 == Stored(map[a.addr := a.presented.value]);
    assert h.FileAt(2) == RunOnce(h.FileAt(1), b).1 == Empty;
  }
}
