/**
 Which binary runs after a reset: init's decision (flxc1000-init/src/main.rs), the app's hard reset, which
 rewrites /data/boot_state, and the bootloader's resets, which leave it alone.
 */
module BootChain {
  import opened Wrappers
  import opened Resets

  const APP_VALID := "app_valid"
  const BOOT_REQUESTED := "boot_requested\n"

  /** `char::is_whitespace`: the Unicode White_Space characters. */
  predicate IsWhitespace(c: char) {
    || '\U{09}' <= c <= '\U{0D}' || c == ' ' || c == '\U{85}' || c == '\U{A0}' || c == '\U{1680}'
    || '\U{2000}' <= c <= '\U{200A}' || c == '\U{2028}' || c == '\U{2029}' || c == '\U{202F}' || c == '\U{205F}'
    || c == '\U{3000}'
  }

  /** `str::trim`. */
  function Trim(s: string): string {
    if s == [] then s
    else if IsWhitespace(s[0]) then Trim(s[1..])
    else if IsWhitespace(s[|s| - 1]) then Trim(s[..|s| - 1])
    else s
  }

  /** The text of the file, where it exists and is readable. */
  type File = Option<string>

  predicate IsValid(f: File) {
    Trim(f.GetOr("")) == APP_VALID
  }

  /** What init finds: whether the card appeared, both partitions mounted and the app binary exists. */
  datatype Board = Board(mmcPresent: bool, dataMounted: bool, appMounted: bool, appExists: bool)

  datatype Binary = AppBinary | BootBinary

  function Choose(b: Board, f: File): Binary {
    if !b.mmcPresent || !b.dataMounted || !b.appMounted then BootBinary
    else if IsValid(f) && b.appExists then AppBinary
    else BootBinary
  }

  datatype Mode = Init | App(pending: Reset) | Boot(pending: Reset) | Halted

  /** Nothing syncs boot_state: the card holds its text only once the kernel has written it back. */
  datatype State = State(mode: Mode, file: File, card: File)

  /** How the app's write of boot_state goes: done, failed before touching the file, or cut short. */
  datatype Write = Done | Untouched | Torn(length: nat)

  function Written(f: File, w: Write): File {
    match w
    case Done => Some(BOOT_REQUESTED)
    case Untouched => f
    case Torn(n) => Some(BOOT_REQUESTED[..if n < |BOOT_REQUESTED| then n else |BOOT_REQUESTED|])
  }

  /** What is left of the file when the power goes: the card's text, unless some of a newer one got there. */
  function Surviving(s: State, w: Write): File {
    if s.file == s.card || w.Done? then s.file else Written(s.card, w)
  }

  /**
   One event in the life of the device; an event that does not fit the mode it meets has no effect. A power
   cycle tells how much of a text not yet written back reaches the card.
   */
  datatype Event =
    | RunInit(board: Board, execWorks: bool)
    | AppReset(resetType: nat, write: Write)
    | BootReset(resetType: nat)
    | TakeReset(execWorks: bool)
    | WriteBack
    | PowerCycle(write: Write)

  function Step(s: State, e: Event): State {
    match e
    case RunInit(board, execWorks) =>
      if !s.mode.Init? then s
      else if !execWorks then s.(mode := Halted)
      else s.(mode := if Choose(board, s.file).AppBinary? then App(NoReset) else Boot(NoReset))
    case AppReset(resetType, write) =>
      if s.mode != App(NoReset) || resetType != 0x01 then s
      else s.(mode := if write.Done? then App(HardReset) else s.mode, file := Written(s.file, write))
    case BootReset(resetType) =>
      if s.mode != Boot(NoReset) then s
      else if resetType == 0x01 then s.(mode := Boot(HardReset))
      else if resetType == 0x03 then s.(mode := Boot(SoftReset))
      else s
    case TakeReset(execWorks) =>
      // after the response of the request that asked for it
      if (!s.mode.App? && !s.mode.Boot?) || s.mode.pending.NoReset? then s
      else if !execWorks then s.(mode := Halted)
      else s.(mode := if s.mode.pending.HardReset? then Init else Boot(NoReset))
    case WriteBack => s.(card := s.file)
    case PowerCycle(write) => State(Init, Surviving(s, write), Surviving(s, write))
  }

  function Run(f: File, es: seq<Event>): State {
    if es == [] then State(Init, f, f) else Step(Run(f, es[..|es| - 1]), es[|es| - 1])
  }

  // ---------------------------------------------------------------------------------------------
  // The decision

  /** The k-th event is a hard reset of the app that changed or truncated the file. */
  predicate Rewrites(f: File, es: seq<Event>, k: nat)
    requires k < |es|
  {
    Run(f, es[..k]).mode == App(NoReset) && es[k].AppReset? && es[k].resetType == 0x01 && !es[k].write.Untouched?
  }

  datatype Fate = Pending | Saved | Lost

  /** What became of the text written by the k-th event: whether it, or part of it, got to the card. */
  function FateOf(es: seq<Event>, k: nat): Fate
    requires k < |es|
  {
    var n := |es| - 1;
    if k == n then Pending
    else if FateOf(es[..n], k) != Pending then FateOf(es[..n], k)
    else if es[n].PowerCycle? && es[n].write.Untouched? then Lost
    else if es[n].WriteBack? || es[n].PowerCycle? then Saved
    else Pending
  }

  /** Some rewrite of the file has reached the card. */
  ghost predicate IsSaved(f: File, es: seq<Event>) {
    exists k :: 0 <= k < |es| && Rewrites(f, es, k) && FateOf(es, k).Saved?
  }

  /** Some rewrite of the file has not been lost with the power. */
  ghost predicate Stands(f: File, es: seq<Event>) {
    exists k :: 0 <= k < |es| && Rewrites(f, es, k) && !FateOf(es, k).Lost?
  }

  /** Whatever a hard reset leaves of its text, it does not read as the mark of a valid app. */
  lemma RequestIsNotValid(n: nat)
    requires n <= |BOOT_REQUESTED|
    ensures Trim(BOOT_REQUESTED[..n]) != APP_VALID
  {
    if n > 0 {
      TrimKeepsFirst(BOOT_REQUESTED[..n]);
    }
  }

  lemma {:induction false} TrimKeepsFirst(s: string)
    requires s != [] && !IsWhitespace(s[0])
    ensures Trim(s) != [] && Trim(s)[0] == s[0]
  {
    if IsWhitespace(s[|s| - 1]) {
      TrimKeepsFirst(s[..|s| - 1]);
    }
  }

  predicate LosesPower(e: Event) {
    e.PowerCycle? && e.write.Untouched?
  }

  predicate Saves(e: Event) {
    e.WriteBack? || (e.PowerCycle? && !e.write.Untouched?)
  }

  lemma FatesStep(f: File, es: seq<Event>)
    requires es != []
    ensures var n := |es| - 1;
            && (IsSaved(f, es) <==> IsSaved(f, es[..n]) || (Stands(f, es[..n]) && Saves(es[n])))
            && (Stands(f, es) <==> (if LosesPower(es[n]) then IsSaved(f, es[..n]) else Stands(f, es[..n]))
                                   || Rewrites(f, es, n))
  {
    var n := |es| - 1;
    forall k: nat | k < n ensures Rewrites(f, es[..n], k) <==> Rewrites(f, es, k) {
      hide Run;
      assert es[..n][..k] == es[..k];
    }
    hide Rewrites;
    if k :| 0 <= k < n && Rewrites(f, es[..n], k) && FateOf(es[..n], k).Saved? {
      assert Rewrites(f, es, k) && FateOf(es, k).Saved?;
    }
    if k :| 0 <= k < n && Rewrites(f, es[..n], k) && !FateOf(es[..n], k).Lost? {
      assert Rewrites(f, es, k) && (Saves(es[n]) ==> FateOf(es, k).Saved?);
      assert !LosesPower(es[n]) ==> !FateOf(es, k).Lost?;
    }
  }

  lemma {:induction false} FileFollowsResets(f: File, es: seq<Event>)
    ensures if Stands(f, es) then !IsValid(Run(f, es).file) else Run(f, es).file == f
    ensures if IsSaved(f, es) then !IsValid(Run(f, es).card) else Run(f, es).card == f
  {
    hide IsValid, Written;
    if es != [] {
      var n := |es| - 1;
      FileFollowsResets(f, es[..n]);
      FatesStep(f, es);
      hide Stands, IsSaved;
      var s := Run(f, es[..n]);
      UntouchedFileStays(s.file);
      UntouchedFileStays(s.card);
      if es[n].AppReset? && !es[n].write.Untouched? {
        LeftoverIsNotValid(s.file, es[n].write);
      } else if es[n].PowerCycle? && !es[n].write.Untouched? {
        LeftoverIsNotValid(s.card, es[n].write);
      }
    }
  }

  lemma UntouchedFileStays(f: File)
    ensures Written(f, Untouched) == f
  {
  }

  lemma LeftoverIsNotValid(f: File, w: Write)
    requires !w.Untouched?
    ensures !IsValid(Written(f, w))
  {
    var n := if w.Torn? && w.length < |BOOT_REQUESTED| then w.length else |BOOT_REQUESTED|;
    RequestIsNotValid(n);
    assert BOOT_REQUESTED[..|BOOT_REQUESTED|] == BOOT_REQUESTED;
  }

  /**
   After any history of resets and power cycles, init starts the app exactly when the card, both partitions
   and the binary are there, the file marked the app valid to begin with, and every hard reset's rewrite of it,
   if there was one, was lost with the power before it got to the card.
   */
  lemma InitChoosesAppIff(f: File, es: seq<Event>, board: Board)
    ensures Choose(board, Run(f, es).file) == AppBinary
            <==> board == Board(true, true, true, true) && IsValid(f) && !Stands(f, es)
  {
    FileFollowsResets(f, es);
  }

  predicate AllWhitespace(s: string) {
    forall i :: 0 <= i < |s| ==> IsWhitespace(s[i])
  }

  /** The string is the other one with white space around it. */
  ghost predicate IsPadded(s: string, trimmed: string) {
    exists a, b :: s == a + trimmed + b && AllWhitespace(a) && AllWhitespace(b)
  }

  /** The file marks the app valid exactly when it reads app_valid but for white space around it. */
  lemma ValidIff(f: File)
    ensures IsValid(f) <==> IsPadded(f.GetOr(""), "app_valid")
    ensures IsWhitespace(' ') && IsWhitespace('\t') && IsWhitespace('\r') && IsWhitespace('\n')
  {
    var s := f.GetOr("");
    TrimCuts(s);
    if a, b :| s == a + "app_valid" + b && AllWhitespace(a) && AllWhitespace(b) {
      TrimDrops(a, "app_valid", b);
    }
  }

  lemma {:induction false} TrimCuts(s: string)
    ensures IsPadded(s, Trim(s))
  {
    hide IsWhitespace, IsPadded;
    if s != [] && IsWhitespace(s[0]) {
      TrimCuts(s[1..]);
      assert [s[0]] + s[1..] == s;
      PaddedMore(s[0], s[1..], Trim(s));
    } else if s != [] && IsWhitespace(s[|s| - 1]) {
      TrimCuts(s[..|s| - 1]);
      assert s[..|s| - 1] + [s[|s| - 1]] == s;
      PaddedMore(s[|s| - 1], s[..|s| - 1], Trim(s));
    } else {
      NotPadded(s);
    }
  }

  lemma NotPadded(s: string)
    ensures IsPadded(s, s)
  {
    assert s == "" + s + "" && AllWhitespace("");
  }

  lemma PaddedMore(c: char, s: string, trimmed: string)
    requires IsWhitespace(c) && IsPadded(s, trimmed)
    ensures IsPadded([c] + s, trimmed) && IsPadded(s + [c], trimmed)
  {
    hide IsWhitespace;
    var a, b :| s == a + trimmed + b && AllWhitespace(a) && AllWhitespace(b);
    assert [c] + s == ([c] + a) + trimmed + b && AllWhitespace([c] + a);
    assert s + [c] == a + trimmed + (b + [c]) && AllWhitespace(b + [c]);
  }

  lemma {:induction false} TrimDrops(a: string, s: string, b: string)
    requires AllWhitespace(a) && AllWhitespace(b)
    requires s != [] && !IsWhitespace(s[0]) && !IsWhitespace(s[|s| - 1])
    ensures Trim(a + s + b) == s
    decreases |a| + |b|
  {
    var whole := a + s + b;
    if a != [] {
      assert whole[0] == a[0] && whole[1..] == a[1..] + s + b;
      TrimDrops(a[1..], s, b);
    } else if b != [] {
      assert whole[0] == s[0] && whole[|whole| - 1] == b[|b| - 1] && whole[..|whole| - 1] == a + s + b[..|b| - 1];
      TrimDrops(a, s, b[..|b| - 1]);
    } else {
      assert whole == s;
    }
  }

  // ---------------------------------------------------------------------------------------------
  // What runs next

  lemma OneMoreEvent(f: File, es: seq<Event>, e: Event)
    ensures Run(f, es + [e]) == Step(Run(f, es), e)
  {
    assert (es + [e])[..|es|] == es;
  }

  /** Whenever init runs, it starts the app just then, and the bootloader otherwise; the file stays as it is. */
  lemma InitStartsAppIff(f: File, es: seq<Event>, board: Board, execWorks: bool)
    requires Run(f, es).mode.Init?
    ensures var after := Run(f, es + [RunInit(board, execWorks)]);
            && after.mode == (if !execWorks then Halted
                              else if board == Board(true, true, true, true) && IsValid(f) && !Stands(f, es)
                              then App(NoReset) else Boot(NoReset))
            && after.file == Run(f, es).file && after.card == Run(f, es).card
  {
    hide Stands, Run;
    OneMoreEvent(f, es, RunInit(board, execWorks));
    InitChoosesAppIff(f, es, board);
  }

  /**
   A reset of the bootloader is carried out once, and leaves the file alone: a hard one leads back to init, a
   soft one to the bootloader itself, and any other is refused.
   */
  lemma BootResetLeads(f: File, es: seq<Event>, resetType: nat, execWorks: bool)
    requires Run(f, es).mode == Boot(NoReset)
    ensures var asked, taken := Run(f, es + [BootReset(resetType)]),
                                Run(f, es + [BootReset(resetType)] + [TakeReset(execWorks)]);
            && asked.mode == Boot(if resetType == 1 then HardReset else if resetType == 3 then SoftReset else NoReset)
            && taken.mode == (if resetType != 1 && resetType != 3 then Boot(NoReset)
                              else if !execWorks then Halted
                              else if resetType == 1 then Init else Boot(NoReset))
            && asked.file == taken.file == Run(f, es).file && asked.card == taken.card == Run(f, es).card
  {
    hide Run;
    OneMoreEvent(f, es, BootReset(resetType));
    OneMoreEvent(f, es + [BootReset(resetType)], TakeReset(execWorks));
  }

  /**
   A hard reset of the app whose write is done hands over to the bootloader: the file asks for it, the reset leads to
   init, and init starts the bootloader whatever it finds. One whose write fails, and any other reset, is
   refused, and the app goes on.
   */
  lemma AppHandsOver(f: File, es: seq<Event>, resetType: nat, write: Write, board: Board)
    requires Run(f, es).mode == App(NoReset)
    ensures var asked := es + [AppReset(resetType, write)];
            var taken := asked + [TakeReset(true)];
            if resetType == 1 && write.Done? then
              && Run(f, asked).mode == App(HardReset) && Run(f, asked).file == Some("boot_requested\n")
              && Run(f, taken).mode == Init
              && Run(f, taken + [RunInit(board, true)]).mode == Boot(NoReset)
            else
              && Run(f, asked).mode == App(NoReset) && Run(f, taken).mode == App(NoReset)
              && (resetType != 1 ==> Run(f, asked).file == Run(f, es).file)
  {
    hide Run, IsValid;
    var asked := es + [AppReset(resetType, write)];
    var taken := asked + [TakeReset(true)];
    OneMoreEvent(f, es, AppReset(resetType, write));
    OneMoreEvent(f, asked, TakeReset(true));
    OneMoreEvent(f, taken, RunInit(board, true));
    LeftoverIsNotValid(Run(f, es).file, Done);
  }

  /** A power cycle leads to init, with the text on the card; a device whose exec failed waits for one. */
  lemma PowerCycleLeads(f: File, es: seq<Event>, write: Write, e: Event)
    ensures var s, after := Run(f, es), Run(f, es + [PowerCycle(write)]);
            && after.mode == Init && after.card == after.file
            && (write.Done? ==> after.file == s.file)
            && (write.Untouched? ==> after.file == s.card)
    ensures Run(f, es).mode.Halted? && !e.PowerCycle? ==> Run(f, es + [e]).mode.Halted?
  {
    hide Run;
    OneMoreEvent(f, es, PowerCycle(write));
    OneMoreEvent(f, es, e);
  }

  /**
   Once a hard reset has rewritten the file and the app has gone, it never runs again: through any resets and
   write-backs, and through any loss of power too if the rewrite got to the card before.
   */
  lemma {:induction false} AppNeverReturns(f: File, es: seq<Event>, more: seq<Event>)
    requires Stands(f, es) && !Run(f, es).mode.App?
    requires IsSaved(f, es) || forall e :: e in more ==> !LosesPower(e)
    ensures Stands(f, es + more) && (IsSaved(f, es) ==> IsSaved(f, es + more))
    ensures !Run(f, es + more).mode.App?
  {
    hide Stands, IsSaved, Rewrites;
    if more == [] {
      assert es + more == es;
    } else {
      var front, last := more[..|more| - 1], more[|more| - 1];
      assert last in more;
      AppNeverReturns(f, es, front);
      assert (es + more)[..|es + more| - 1] == es + front;
      FatesStep(f, es + more);
      FileFollowsResets(f, es + front);
    }
  }
}
