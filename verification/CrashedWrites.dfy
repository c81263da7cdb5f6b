/** A power failure during filewrite (xv6/file.c): the transactions of the write, as the file system makes them,
    go through the log (xv6/log.c). Blocks are bytes there and words here. */
module CrashedWrites {
  import opened FsLayout
  import opened Ownership
  import opened FileBytes
  import opened FileCalls
  import F = Fs
  import L = LogDisk
  import Log
  import G = GroupCommit

  // ---------------------------------------------------------------------------------------
  // Bytes and words
  // ---------------------------------------------------------------------------------------

  function Words(b: Block): L.Block {
    seq(L.BLOCK_WORDS, i requires 0 <= i < L.BLOCK_WORDS => Word(b, 4 * i) as int)
  }

  function Coded(d: seq<Block>): L.Disk {
    seq(|d|, i requires 0 <= i < |d| => Words(d[i]))
  }

  lemma WordDigits(s: seq<Byte>, t: seq<Byte>, p: nat)
    requires p + 4 <= |s| && p + 4 <= |t| && Word(s, p) == Word(t, p)
    ensures s[p] == t[p] && s[p + 1] == t[p + 1] && s[p + 2] == t[p + 2] && s[p + 3] == t[p + 3]
  {
    var a, b := s[p + 1] as int + 0x100 * s[p + 2] as int + 0x1_0000 * s[p + 3] as int,
      t[p + 1] as int + 0x100 * t[p + 2] as int + 0x1_0000 * t[p + 3] as int;
    Digit(s[p], a, t[p], b);
    var a', b' := s[p + 2] as int + 0x100 * s[p + 3] as int, t[p + 2] as int + 0x100 * t[p + 3] as int;
    Digit(s[p + 1], a', t[p + 1], b');
    Digit(s[p + 2], s[p + 3], t[p + 2], t[p + 3]);
  }

  lemma Digit(x: Byte, a: int, y: Byte, b: int)
    requires x as int + 0x100 * a == y as int + 0x100 * b
    ensures x == y && a == b
  {
  }

  /** Blocks with the same words are the same. */
  lemma WordsSame(b: Block, c: Block)
    requires Words(b) == Words(c)
    ensures b == c
  {
    forall x | 0 <= x < BSIZE ensures b[x] == c[x] {
      var p := x / 4;
      assert Words(b)[p] == Words(c)[p];
      WordDigits(b, c, 4 * p);
    }
  }

  /** The log lies between the super block and the inodes. */
  predicate LogAhead(sb: Super, lay: L.Layout) {
    sb.Valid() && lay.Valid() && lay.total == sb.size && lay.start + lay.size <= sb.inodestart
  }

  // ---------------------------------------------------------------------------------------
  // The transactions in the log
  // ---------------------------------------------------------------------------------------

  /** The commits among the first n steps. */
  function Commits(steps: seq<G.Step>, n: nat): nat
    requires n <= |steps|
  {
    if n == 0 then 0 else Commits(steps, n - 1) + if steps[n - 1].Commit? then 1 else 0
  }

  /** The writes ws of one operation pass the blocks of log to log_write, each last with its contents in e. */
  ghost predicate Sends(ws: seq<G.OpWrite>, log: set<nat>, e: L.Disk) {
    && (forall i | 0 <= i < |ws| :: 0 <= ws[i].bn && ws[i].bn in log)
    && (forall b | b in log :: b < |e| && LastIs(ws, b, e[b]))
  }

  ghost predicate LastIs(ws: seq<G.OpWrite>, b: int, data: L.Block) {
    exists i :: 0 <= i < |ws| && ws[i].bn == b && ws[i].data == data && forall j | i < j < |ws| :: ws[j].bn != b
  }

  lemma {:induction false} ReplayLast(e: L.Disk, ws: seq<G.OpWrite>, b: nat)
    requires b < |e|
    ensures (forall i | 0 <= i < |ws| :: ws[i].bn != b) ==> G.Replay(e, ws)[b] == e[b]
    ensures forall data | LastIs(ws, b, data) :: G.Replay(e, ws)[b] == data
    decreases |ws|
  {
    if ws != [] {
      var rest, w := ws[..|ws| - 1], ws[|ws| - 1];
      ReplayLast(e, rest, b);
      if w.bn != b {
        forall data | LastIs(ws, b, data) ensures LastIs(rest, b, data) {
          var i :| 0 <= i < |ws| && ws[i].bn == b && ws[i].data == data && forall j | i < j < |ws| :: ws[j].bn != b;
          assert rest[i].bn == b;
        }
      }
    }
  }

  /** A transaction from disk d to d', carried by the log. */
  lemma ReplayIsNext(sb: Super, lay: L.Layout, e: L.Disk, d: seq<Block>, d': seq<Block>, log: set<nat>,
      ws: seq<G.OpWrite>)
    requires LogAhead(sb, lay) && |d| == sb.size && F.Touched(sb, d, {}, d', log)
    requires L.HomeEq(lay, e, Coded(d)) && Sends(ws, log, Coded(d'))
    ensures L.HomeEq(lay, G.Replay(e, ws), Coded(d'))
  {
    forall b | lay.IsHome(b) ensures G.Replay(e, ws)[b] == Coded(d')[b] {
      ReplayLast(e, ws, b);
      if b in log {
        assert LastIs(ws, b, Coded(d')[b]);
      } else {
        assert e[b] == Coded(d)[b] && d'[b] == d[b];
      }
    }
  }

  /** Up to state m nothing has failed, and operations come one at a time, each the next transaction. */
  ghost predicate OneByOne(states: seq<G.Sys>, steps: seq<G.Step>, m: nat, disks: seq<seq<Block>>, logs: seq<set<nat>>)
    requires m <= |steps| && |states| == |steps| + 1
  {
    forall n | 0 <= n < m :: Orderly(states[n], steps[n], Commits(steps, n), disks, logs)
  }

  ghost predicate Orderly(s: G.Sys, step: G.Step, c: nat, disks: seq<seq<Block>>, logs: seq<set<nat>>) {
    && !step.Crash? && (step.Begin? ==> s.ops == [])
    && (step.End? ==> c < |logs| && c + 1 < |disks| && Sends(s.pending, logs[c], Coded(disks[c + 1])))
  }

  /** After c commits the durable disk is that after c transactions, and while one is committed the pending
      writes lead to the next. */
  ghost predicate InStep(lay: L.Layout, s: G.Sys, c: nat, disks: seq<seq<Block>>) {
    && c < |disks| && L.HomeEq(lay, s.durable, Coded(disks[c])) && |s.ops| <= 1
    && (s.log.committing ==> c + 1 < |disks| && L.HomeEq(lay, G.Replay(s.durable, s.pending), Coded(disks[c + 1])))
    && (!s.log.committing && s.ops == [] ==> s.pending == [])
  }

  /** The transactions are those of the file system. */
  ghost predicate Transactions(sb: Super, disks: seq<seq<Block>>, logs: seq<set<nat>>) {
    && |disks| == |logs| + 1 && (forall j | 0 <= j < |disks| :: |disks[j]| == sb.size)
    && (forall j | 0 <= j < |logs| :: F.Touched(sb, disks[j], {}, disks[j + 1], logs[j]))
  }

  lemma StepInStep(sb: Super, lay: L.Layout, s: G.Sys, step: G.Step, c: nat, disks: seq<seq<Block>>,
      logs: seq<set<nat>>)
    requires LogAhead(sb, lay) && Transactions(sb, disks, logs) && InStep(lay, s, c, disks)
    requires G.Inv(lay, s) && G.Enabled(lay, s, step) && Orderly(s, step, c, disks, logs)
    ensures InStep(lay, G.Do(lay, s, step), if step.Commit? then c + 1 else c, disks)
  {
    hide L.HomeEq, Coded, Sends, F.Touched, G.Replay, Log.Good, G.Agrees, G.Owned, G.Calls;
    if step.End? {
      ReplayIsNext(sb, lay, s.durable, disks[c], disks[c + 1], logs[c], s.pending);
    }
  }

  lemma {:induction false} RunInStep(sb: Super, lay: L.Layout, states: seq<G.Sys>, steps: seq<G.Step>, n: nat, m: nat,
                                     disks: seq<seq<Block>>, logs: seq<set<nat>>)
    requires LogAhead(sb, lay) && Transactions(sb, disks, logs) && G.Run(lay, states, steps) && n <= m <= |steps|
    requires OneByOne(states, steps, m, disks, logs) && L.HomeEq(lay, states[0].durable, Coded(disks[0]))
    ensures InStep(lay, states[n], Commits(steps, n), disks)
    decreases n
  {
    hide G.Inv, G.Enabled, G.Do, G.Init, InStep, Orderly, L.HomeEq, Coded;
    if n > 0 {
      RunInStep(sb, lay, states, steps, n - 1, m, disks, logs);
      assert G.Next(lay, states[n - 1], steps[n - 1], states[n]);
      hide Transactions;
      StepInStep(sb, lay, states[n - 1], steps[n - 1], Commits(steps, n - 1), disks, logs);
    } else {
      InitInStep(lay, states[0], disks);
    }
  }

  lemma InitInStep(lay: L.Layout, s: G.Sys, disks: seq<seq<Block>>)
    requires G.Init(lay, s) && |disks| > 0 && L.HomeEq(lay, s.durable, Coded(disks[0]))
    ensures InStep(lay, s, 0, disks)
  {
    hide L.HomeEq, Coded;
  }

  /** A power failure at any block write of the run, and then any number of failed recoveries: the home blocks
      come back as they were after a whole number of transactions, those committed before or one more. */
  lemma WholeTransactions(sb: Super, lay: L.Layout, states: seq<G.Sys>, steps: seq<G.Step>, m: nat, k: nat,
                          ks: seq<nat>, disks: seq<seq<Block>>, logs: seq<set<nat>>) returns (j: nat)
    requires LogAhead(sb, lay) && Transactions(sb, disks, logs) && G.Run(lay, states, steps) && m <= |steps|
    requires OneByOne(states, steps, m, disks, logs) && L.HomeEq(lay, states[0].durable, Coded(disks[0]))
    requires G.Fitted(lay, states, steps, m)
    ensures G.Inv(lay, states[m]) && j < |disks| && Commits(steps, m) <= j <= Commits(steps, m) + 1
    ensures var log := states[m].log;
            k <= |G.Underway(lay, log)| && G.CrashDisk(lay, log, k, ks).Just? ==>
              && lay.HeadOk(G.CrashDisk(lay, log, k, ks).disk)
              && L.HomeEq(lay, L.Recovered(lay, G.CrashDisk(lay, log, k, ks).disk), Coded(disks[j]))
  {
    hide G.Underway, G.CrashDisk, L.Recovered, G.Next, G.Init, Coded, Transactions, G.Overruns, Orderly,
      G.Agrees, G.Owned, G.Budgets, G.Calls, G.Replay, L.HomeEq;
    RunInStep(sb, lay, states, steps, m, m, disks, logs);
    G.RunSafe(lay, states, steps, m);
    var c, s := Commits(steps, m), states[m];
    j := if G.Committed(s.log, k) then c + 1 else c;
    if k <= |G.Underway(lay, s.log)| && G.CrashDisk(lay, s.log, k, ks).Just? {
      G.RecoversDurable(lay, s, k, ks);
      var r := L.Recovered(lay, G.CrashDisk(lay, s.log, k, ks).disk);
      HomeTransitive(lay, r, if G.Committed(s.log, k) then G.Replay(s.durable, s.pending) else s.durable,
          Coded(disks[j]));
    }
  }

  lemma HomeTransitive(lay: L.Layout, a: L.Disk, b: L.Disk, c: L.Disk)
    requires L.HomeEq(lay, a, b) && L.HomeEq(lay, b, c)
    ensures L.HomeEq(lay, a, c)
  {
  }

  // ---------------------------------------------------------------------------------------
  // The files
  // ---------------------------------------------------------------------------------------

  /** Disks that agree from the inodes on have the same inodes, slots and files. */
  lemma SameFromInodes(sb: Super, s: State, owner: Owner, e: seq<Block>, s': State)
    requires Inv(sb, s, owner, {}) && AllFilled(sb, s) && Synced(sb, s) && s.others == map[] && |e| == sb.size
    requires forall b | sb.inodestart <= b < sb.size :: e[b] == s.disk[b]
    requires s' == State(e, s.inum, DInode(sb, e, s.inum), map[])
    ensures SameFiles(sb, s, s')
  {
    hide Decode, Marked;
    forall i | 0 <= i < sb.ninodes ensures DInode(sb, e, i) == DInode(sb, s.disk, i) {
      assert sb.inodestart <= IBlock(sb, i) < sb.bmapstart;
    }
    assert forall i | 0 <= i < sb.ninodes :: Node(sb, s', i) == Node(sb, s, i);
    hide DInode, Node;
    forall i | 0 <= i < sb.ninodes ensures FileKept(sb, s, s', i) {
      SlotsFromInodes(sb, s, owner, s', i);
    }
    hide FileKept, Inv, Filled, File, AllFilled;
    forall i | 0 <= i < sb.ninodes ensures Filled(sb, s', i) && File(sb, s', i) == File(sb, s, i) {
      FilledOf(sb, s, i);
      KeptBytes(sb, s, s', owner, i);
    }
    AllFilledFrom(sb, s');
  }

  lemma FilledOf(sb: Super, s: State, i: nat)
    requires Shape(sb, s) && AllFilled(sb, s) && i < sb.ninodes
    ensures Filled(sb, s, i)
  {
  }

  lemma AllFilledFrom(sb: Super, s: State)
    requires Shape(sb, s) && forall i | 0 <= i < sb.ninodes :: Filled(sb, s, i)
    ensures AllFilled(sb, s)
  {
  }

  lemma SlotsFromInodes(sb: Super, s: State, owner: Owner, s': State, i: nat)
    requires Inv(sb, s, owner, {}) && Shape(sb, s') && i < sb.ninodes && Node(sb, s', i) == Node(sb, s, i)
    requires forall b | sb.inodestart <= b < sb.size :: s'.disk[b] == s.disk[b]
    ensures FileKept(sb, s, s', i)
  {
    hide Marked, Entry;
    assert SlotOwned(sb, s, owner, i, NDIRECT) && Slot(sb, s, i, NDIRECT) == Node(sb, s, i).addrs[NDIRECT];
    var a := Node(sb, s, i).addrs[NDIRECT];
    assert a != 0 ==> BlockOwned(sb, s, owner, a);
    hide Node;
    forall k | 0 <= k < SLOTS && k != NDIRECT ensures BlockKept(sb, s, s', i, k) {
      assert SlotOwned(sb, s, owner, i, k);
      assert Slot(sb, s, i, k) != 0 ==> BlockOwned(sb, s, owner, Slot(sb, s, i, k));
    }
  }

  /** The disks between the transactions of a filewrite. */
  function Disks(s: State, stops: seq<State>): seq<seq<Block>> {
    seq(|stops| + 1, k requires 0 <= k <= |stops| => Before(s, stops, k).disk)
  }

  lemma ChainedTransactions(sb: Super, s: State, stops: seq<State>, txns: seq<set<nat>>)
    requires Chained(sb, s, stops, txns) && |s.disk| == sb.size
    ensures Transactions(sb, Disks(s, stops), txns)
  {
    hide F.Touched, InOrder, Before;
    var disks := Disks(s, stops);
    forall j | 0 <= j < |txns| ensures F.Touched(sb, disks[j], {}, disks[j + 1], txns[j]) {
      BeforeNext(s, stops, j);
      assert F.Touched(sb, Before(s, stops, j).disk, {}, stops[j].disk, txns[j]);
    }
    forall j | 0 <= j < |disks| ensures |disks[j]| == sb.size {
      DiskSize(sb, s, stops, txns, j);
    }
  }

  lemma BeforeNext(s: State, stops: seq<State>, j: nat)
    requires j < |stops|
    ensures Before(s, stops, j + 1) == stops[j]
  {
  }

  lemma {:induction false} DiskSize(sb: Super, s: State, stops: seq<State>, txns: seq<set<nat>>, j: nat)
    requires Chained(sb, s, stops, txns) && |s.disk| == sb.size && j <= |stops|
    ensures |Before(s, stops, j).disk| == sb.size
    decreases j
  {
    if j > 0 {
      DiskSize(sb, s, stops, txns, j - 1);
      assert F.Touched(sb, Before(s, stops, j - 1).disk, {}, stops[j - 1].disk, txns[j - 1]);
    }
  }

  /** Byte disks that stand for the same home blocks agree from the inodes on. */
  lemma SameBlocks(sb: Super, lay: L.Layout, r: L.Disk, d: seq<Block>, e: seq<Block>)
    requires LogAhead(sb, lay) && |d| == |e| == sb.size && L.HomeEq(lay, r, Coded(d)) && L.HomeEq(lay, r, Coded(e))
    ensures forall b | sb.inodestart <= b < sb.size :: e[b] == d[b]
  {
    forall b | sb.inodestart <= b < sb.size ensures e[b] == d[b] {
      assert lay.IsHome(b);
      assert Coded(d)[b] == Words(d[b]) && Coded(e)[b] == Words(e[b]);
      WordsSame(d[b], e[b]);
    }
  }

  /** The files of s' are those of s with m bytes of addr over inode s.inum from off on. */
  ghost predicate Holds(sb: Super, s: State, off: nat, addr: seq<Byte>, m: nat, s': State)
    requires Shape(sb, s) && AllFilled(sb, s)
  {
    && Shape(sb, s') && AllFilled(sb, s') && m <= |addr|
    && (m > 0 ==> off <= |File(sb, s, s.inum)|)
    && File(sb, s', s.inum) == (if m == 0 then File(sb, s, s.inum) else Overlay(File(sb, s, s.inum), off, addr[..m]))
    && (forall i | 0 <= i < sb.ninodes && i != s.inum :: File(sb, s', i) == File(sb, s, i))
  }

  lemma SentHolds(sb: Super, s: State, off: nat, addr: seq<Byte>, m: nat, s1: State, s': State)
    requires Sent(sb, s, off, addr, m, s1) && SameFiles(sb, s1, s')
    ensures Shape(sb, s) && AllFilled(sb, s) && Holds(sb, s, off, addr, m, s')
  {
    hide Filled, File, DInode, Node;
    FilledOf(sb, s, s.inum);
    FileLength(sb, s, s.inum);
    NodeIp(sb, s);
  }

  lemma NodeIp(sb: Super, s: State)
    requires Shape(sb, s)
    ensures Node(sb, s, s.inum) == s.ip
  {
  }

  /** What a power failure during filewrite leaves of the file, whenever it comes and however often recovery is
      interrupted: its old contents with a whole number of chunks of the write in it. The log sees no
      other operation, e is the recovered disk in bytes, and every other file is as it was. */
  lemma CrashedFilewrite(sb: Super, lay: L.Layout, s: State, owner: Owner, off: nat, addr: seq<Byte>, n: int,
                         stops: seq<State>, txns: seq<set<nat>>, states: seq<G.Sys>, steps: seq<G.Step>,
                         m: nat, k: nat, ks: seq<nat>, e: seq<Block>) returns (j: nat)
    requires Inv(sb, s, owner, {}) && AllFilled(sb, s) && Synced(sb, s) && s.others == map[]
    requires Chained(sb, s, stops, txns)
    requires forall i | 0 <= i < |stops| :: Sent(sb, s, off, addr, Chunks(i + 1, n), stops[i])
    requires LogAhead(sb, lay) && G.Run(lay, states, steps) && m <= |steps| && G.Fitted(lay, states, steps, m)
    requires OneByOne(states, steps, m, Disks(s, stops), txns) && L.HomeEq(lay, states[0].durable, Coded(s.disk))
    requires G.Inv(lay, states[m]) && k <= |G.Underway(lay, states[m].log)|
    requires G.CrashDisk(lay, states[m].log, k, ks).Just? && |e| == sb.size
    requires lay.HeadOk(G.CrashDisk(lay, states[m].log, k, ks).disk)
    requires L.HomeEq(lay, L.Recovered(lay, G.CrashDisk(lay, states[m].log, k, ks).disk), Coded(e))
    ensures j <= |stops| && Commits(steps, m) <= j <= Commits(steps, m) + 1
    ensures Holds(sb, s, off, addr, Chunks(j, n), State(e, s.inum, DInode(sb, e, s.inum), map[]))
  {
    hide G.Underway, G.CrashDisk, L.Recovered, G.Next, G.Init, G.Fitted, OneByOne, G.Agrees, G.Owned,
      G.Budgets, G.Calls, Coded, Inv, AllFilled, Sent, Chained, DInode, Holds, L.HomeEq, Transactions,
      SameFiles, F.Touched, InOrder;
    InvShape(sb, s, owner);
    ChainedTransactions(sb, s, stops, txns);
    j := WholeTransactions(sb, lay, states, steps, m, k, ks, Disks(s, stops), txns);
    var s1 := Before(s, stops, j);
    DiskSize(sb, s, stops, txns, j);
    SameBlocks(sb, lay, L.Recovered(lay, G.CrashDisk(lay, states[m].log, k, ks).disk), s1.disk, e);
    var owner1 := StopInOrder(sb, s, owner, off, addr, n, stops, txns, j);
    SameFromInodes(sb, s1, owner1, e, State(e, s1.inum, DInode(sb, e, s1.inum), map[]));
    SentHolds(sb, s, off, addr, Chunks(j, n), s1, State(e, s1.inum, DInode(sb, e, s1.inum), map[]));
  }

  lemma StopInOrder(sb: Super, s: State, owner: Owner, off: nat, addr: seq<Byte>, n: int, stops: seq<State>,
                    txns: seq<set<nat>>, j: nat) returns (owner': Owner)
    requires Inv(sb, s, owner, {}) && Shape(sb, s) && AllFilled(sb, s) && Synced(sb, s) && s.others == map[]
    requires Chained(sb, s, stops, txns) && j <= |stops|
    requires forall i | 0 <= i < |stops| :: Sent(sb, s, off, addr, Chunks(i + 1, n), stops[i])
    ensures var s1 := Before(s, stops, j);
            && Inv(sb, s1, owner', {}) && Shape(sb, s1) && AllFilled(sb, s1) && Synced(sb, s1) && s1.others == map[]
            && s1.inum == s.inum && Sent(sb, s, off, addr, Chunks(j, n), s1)
  {
    hide Inv, AllFilled, DInode, F.Touched;
    if j == 0 {
      owner' := owner;
    } else {
      assert InOrder(sb, s, stops[j - 1]) && Sent(sb, s, off, addr, Chunks(j, n), stops[j - 1]);
      owner' :| Inv(sb, stops[j - 1], owner', {});
      InvShape(sb, stops[j - 1], owner');
      SentState(sb, s, off, addr, Chunks(j, n), stops[j - 1]);
    }
  }

  lemma SentState(sb: Super, s: State, off: nat, addr: seq<Byte>, m: nat, s': State)
    requires Sent(sb, s, off, addr, m, s') && Synced(sb, s)
    ensures Shape(sb, s') && AllFilled(sb, s') && Synced(sb, s')
  {
    hide AllFilled, File, DInode;
  }
}
