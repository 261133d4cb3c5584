/** The native write actor: one loop over a transaction's commands, with admission
    charges and a single commit. */
module WriteActor {
  import opened Bytes
  import opened Wrappers

  const MAX_MUTATIONS := 10_000
  const MAX_MUTATION_BYTES := 9_000_000

  datatype Mutation = Put(key: Bytes, value: Bytes) | Delete(key: Bytes)

  function ChargedBytes(m: Mutation): nat {
    match m
    case Put(key, value) => |key| + |value|
    case Delete(key) => |key|
  }

  function ChargedAll(ms: seq<Mutation>): nat {
    if ms == [] then 0 else ChargedAll(ms[..|ms| - 1]) + ChargedBytes(ms[|ms| - 1])
  }

  lemma {:induction false} ChargedAppend(one: seq<Mutation>, two: seq<Mutation>)
    ensures ChargedAll(one + two) == ChargedAll(one) + ChargedAll(two)
    decreases |two|
  {
    if two == [] {
      assert one + two == one;
    } else {
      var rest := two[..|two| - 1];
      assert (one + two)[..|one + two| - 1] == one + rest;
      ChargedAppend(one, rest);
    }
  }

  /** The caller's side of a response: still there before the command runs, and still
      there to take the answer. */
  datatype Reply = Reply(open: bool, taken: bool)

  /** A command as the actor receives it. `fails` is where native application breaks off,
      `found` whether the native read of an insert finds a value, `owns` and `begins` the outcomes
      of the ownership and boundary claims. */
  datatype Command =
    | Read(reply: Reply)
    | ApplyAll(mutations: seq<Mutation>, fails: Option<nat>, reply: Reply)
    | Insert(mutation: Mutation, found: bool, fails: Option<nat>, reply: Reply)
    | Commit(owns: bool, begins: bool)
    | Rollback

  /** The actor's counters and what it has staged in the native transaction. */
  datatype Txn = Txn(count: nat, bytes: nat, staged: seq<Mutation>)

  datatype Ending = Disconnected | Dropped | Disowned | Refused | Committed(mutations: seq<Mutation>) | RolledBack

  // ---------------------------------------------------------------- charges

  /** The next counters, unless an addition overflows or a limit is passed. */
  function NextCharge(count: nat, bytes: nat, moreCount: nat, moreBytes: nat): Option<(nat, nat)> {
    if count + moreCount > U64_MAX then None
    else if bytes + moreBytes > U64_MAX then None
    else if count + moreCount > MAX_MUTATIONS || bytes + moreBytes > MAX_MUTATION_BYTES then None
    else Some((count + moreCount, bytes + moreBytes))
  }

  /** The overflow tests never decide: a charge is granted exactly within the limits. */
  lemma NextChargeExact(count: nat, bytes: nat, moreCount: nat, moreBytes: nat)
    ensures NextCharge(count, bytes, moreCount, moreBytes).Some? <==>
            count + moreCount <= MAX_MUTATIONS && bytes + moreBytes <= MAX_MUTATION_BYTES
  {
  }

  function ApplyMutations(t: Txn, ms: seq<Mutation>, fails: Option<nat>): Txn {
    match NextCharge(t.count, t.bytes, |ms|, ChargedAll(ms))
    case None => t
    case Some((count, bytes)) =>
      if fails.Some? && fails.value < |ms| then t.(staged := t.staged + ms[..fails.value])
      else Txn(count, bytes, t.staged + ms)
  }

  /** What one command does to the transaction. */
  function Handled(t: Txn, c: Command): Txn {
    match c
    case ApplyAll(ms, fails, reply) => if reply.open then ApplyMutations(t, ms, fails) else t
    case Insert(m, found, fails, reply) => if reply.open && !found then ApplyMutations(t, [m], fails) else t
    case _ => t
  }

  /** The transaction after the first `k` commands. */
  function After(commands: seq<Command>, k: nat): Txn
    requires k <= |commands|
  {
    if k == 0 then Txn(0, 0, []) else Handled(After(commands, k - 1), commands[k - 1])
  }

  // ---------------------------------------------------------------- what is staged

  /** What a command asks to stage. */
  function Asked(c: Command): seq<Mutation> {
    match c
    case ApplyAll(ms, _, reply) => if reply.open then ms else []
    case Insert(m, found, _, reply) => if reply.open && !found then [m] else []
    case _ => []
  }

  /** How much of it the native engine applies. */
  function Reach(c: Command): nat {
    var asked := Asked(c);
    if (c.ApplyAll? || c.Insert?) && c.fails.Some? && c.fails.value < |asked| then c.fails.value else |asked|
  }

  predicate WithinLimits(count: nat, bytes: nat, ms: seq<Mutation>) {
    count + |ms| <= MAX_MUTATIONS && bytes + ChargedAll(ms) <= MAX_MUTATION_BYTES
  }

  /** Number and bytes of what the first `k` commands asked for and got in full. */
  ghost function Totals(commands: seq<Command>, k: nat): (nat, nat)
    requires k <= |commands|
  {
    if k == 0 then (0, 0)
    else
      var (count, bytes), asked := Totals(commands, k - 1), Asked(commands[k - 1]);
      if WithinLimits(count, bytes, asked) && Reach(commands[k - 1]) == |asked|
      then (count + |asked|, bytes + ChargedAll(asked)) else (count, bytes)
  }

  /** What one command contributes: within the limits, what it asked for up to where the
      native engine broke off. */
  ghost function Share(commands: seq<Command>, k: nat): seq<Mutation>
    requires k < |commands|
  {
    var (count, bytes) := Totals(commands, k);
    if WithinLimits(count, bytes, Asked(commands[k])) then Asked(commands[k])[..Reach(commands[k])] else []
  }

  /** The contributions of the first `k` commands, in order. */
  ghost function Shares(commands: seq<Command>, k: nat): seq<Mutation>
    requires k <= |commands|
  {
    if k == 0 then [] else Shares(commands, k - 1) + Share(commands, k - 1)
  }

  /** One command's contribution, from counters `count` and `bytes`. */
  lemma HandledShare(t: Txn, c: Command)
    ensures var asked := Asked(c);
            Handled(t, c) ==
              if !WithinLimits(t.count, t.bytes, asked) then t
              else if Reach(c) == |asked| then Txn(t.count + |asked|, t.bytes + ChargedAll(asked), t.staged + asked)
              else t.(staged := t.staged + asked[..Reach(c)])
  {
    hide ChargedAll;
    var asked := Asked(c);
    NextChargeExact(t.count, t.bytes, |asked|, ChargedAll(asked));
    NoCharge();
    assert t.staged + [] == t.staged;
  }

  lemma NoCharge()
    ensures ChargedAll([]) == 0
  {
  }

  lemma {:induction false} AfterIsShares(commands: seq<Command>, k: nat)
    requires k <= |commands|
    ensures var t := After(commands, k); t.staged == Shares(commands, k) && (t.count, t.bytes) == Totals(commands, k)
  {
    hide ChargedAll, Handled, Asked, Reach, WithinLimits;
    if k > 0 {
      AfterIsShares(commands, k - 1);
      var t, c := After(commands, k - 1), commands[k - 1];
      HandledShare(t, c);
      assert Asked(c)[..|Asked(c)|] == Asked(c);
      assert t.staged + [] == t.staged;
    }
  }

  // ---------------------------------------------------------------- the loop

  /** The loop goes on after such a command. */
  predicate GoesOn(c: Command) {
    !c.Commit? && !c.Rollback? && c.reply.open && c.reply.taken
  }

  /** How a command on which the loop stops ends the actor. */
  ghost predicate EndsWith(c: Command, staged: seq<Mutation>, ending: Ending) {
    && !GoesOn(c)
    && match c
       case Commit(owns, begins) => ending == if !owns then Disowned else if !begins then Refused else Committed(staged)
       case Rollback => ending == RolledBack
       case _ => ending == Dropped
  }

  /** Serves commands until the caller disconnects or a command ends the actor. The
      actor stops at the first command that ends it, and a commit that won both
      claims commits once, with everything staged before it. */
  method Serve(commands: seq<Command>) returns (ending: Ending, served: nat, commits: nat, t: Txn)
    ensures served <= |commands| && t == After(commands, served)
    ensures t.staged == Shares(commands, served) && (t.count, t.bytes) == Totals(commands, served)
    ensures ending.Disconnected? ==> served == |commands| && forall i :: 0 <= i < served ==> GoesOn(commands[i])
    ensures !ending.Disconnected? ==>
              && 0 < served && (forall i :: 0 <= i < served - 1 ==> GoesOn(commands[i]))
              && EndsWith(commands[served - 1], t.staged, ending)
    ensures commits == if ending.Committed? then 1 else 0
  {
    hide Totals, Shares, ApplyMutations;
    var count: nat, bytes: nat := 0, 0;
    var staged: seq<Mutation> := [];
    commits := 0;
    for k := 0 to |commands|
      invariant Txn(count, bytes, staged) == After(commands, k)
      invariant commits == 0 && forall i :: 0 <= i < k ==> GoesOn(commands[i])
    {
      AfterIsShares(commands, k + 1);
      var keep := false;
      match commands[k] {
        case Read(reply) =>
          keep := reply.open && reply.taken;
        case ApplyAll(ms, fails, reply) =>
          if reply.open {
            count, bytes, staged := ApplyCharged(count, bytes, staged, ms, fails);
            keep := reply.taken;
          }
        case Insert(m, found, fails, reply) =>
          if reply.open {
            if !found {
              count, bytes, staged := ApplyCharged(count, bytes, staged, [m], fails);
            }
            keep := reply.taken;
          }
        case Commit(owns, begins) =>
          t := Txn(count, bytes, staged);
          if !owns {
            return Disowned, k + 1, 0, t;
          }
          if !begins {
            return Refused, k + 1, 0, t;
          }
          commits := commits + 1;
          return Committed(staged), k + 1, commits, t;
        case Rollback =>
          return RolledBack, k + 1, 0, Txn(count, bytes, staged);
      }
      if !keep {
        return Dropped, k + 1, 0, Txn(count, bytes, staged);
      }
    }
    AfterIsShares(commands, |commands|);
    return Disconnected, |commands|, 0, Txn(count, bytes, staged);
  }

  /** Charges first, then applies one by one; the charge is kept only if all applied. */
  method ApplyCharged(count: nat, bytes: nat, staged: seq<Mutation>, ms: seq<Mutation>, fails: Option<nat>)
    returns (newCount: nat, newBytes: nat, newStaged: seq<Mutation>)
    ensures Txn(newCount, newBytes, newStaged) == ApplyMutations(Txn(count, bytes, staged), ms, fails)
  {
    newCount, newBytes, newStaged := count, bytes, staged;
    var charge := NextCharge(count, bytes, |ms|, ChargedAll(ms));
    if charge.None? {
      return;
    }
    for i := 0 to |ms|
      invariant newStaged == staged + ms[..i] && newCount == count && newBytes == bytes
      invariant fails.Some? ==> i <= fails.value
    {
      if fails == Some(i) {
        return;
      }
      newStaged := newStaged + [ms[i]];
    }
    newCount, newBytes := charge.value.0, charge.value.1;
  }

  // ---------------------------------------------------------------- what the charges mean

  /** A charged batch whose native application breaks off after some of it. */
  predicate BreaksOff(t: Txn, c: Command) {
    match c
    case ApplyAll(ms, fails, reply) =>
      reply.open && NextCharge(t.count, t.bytes, |ms|, ChargedAll(ms)).Some? && fails.Some? && 0 < fails.value < |ms|
    case _ => false
  }

  /** The counters are within the limits and at most what is staged, and exactly what is
      staged if and only if `exact`. */
  ghost predicate Charged(t: Txn, exact: bool) {
    && t.count <= MAX_MUTATIONS && t.bytes <= MAX_MUTATION_BYTES
    && t.count <= |t.staged| && t.bytes <= ChargedAll(t.staged)
    && (exact <==> t.count == |t.staged|)
    && (exact ==> t.bytes == ChargedAll(t.staged))
  }

  lemma HandledCharges(t: Txn, c: Command, exact: bool)
    requires Charged(t, exact)
    ensures Charged(Handled(t, c), exact && !BreaksOff(t, c))
  {
    hide Charged, ChargedAll, ApplyMutations;
    match c
    case ApplyAll(ms, fails, reply) =>
      if reply.open {
        ApplyCharges(t, ms, fails, exact);
      }
    case Insert(m, found, fails, reply) =>
      if reply.open && !found {
        ApplyCharges(t, [m], fails, exact);
      }
    case _ =>
  }

  lemma ApplyCharges(t: Txn, ms: seq<Mutation>, fails: Option<nat>, exact: bool)
    requires Charged(t, exact)
    ensures var broken := NextCharge(t.count, t.bytes, |ms|, ChargedAll(ms)).Some? && fails.Some? && 0 < fails.value < |ms|;
            Charged(ApplyMutations(t, ms, fails), exact && !broken)
  {
    hide ChargedAll;
    ChargedAppend(t.staged, ms);
    if fails.Some? && fails.value < |ms| {
      ChargedAppend(t.staged, ms[..fails.value]);
      if fails.value == 0 {
        assert t.staged + ms[..0] == t.staged;
      }
    }
  }

  /** The counters stay within the limits and never exceed what is staged; they are
      exactly what is staged if and only if no charged batch broke off part way. */
  lemma {:induction false} ChargesExact(commands: seq<Command>, k: nat)
    requires k <= |commands|
    ensures Charged(After(commands, k), forall i :: 0 <= i < k ==> !BreaksOff(After(commands, i), commands[i]))
  {
    hide Charged, Handled, BreaksOff;
    if k == 0 {
      NothingCharged();
    } else {
      ChargesExact(commands, k - 1);
      var before := forall i :: 0 <= i < k - 1 ==> !BreaksOff(After(commands, i), commands[i]);
      HandledCharges(After(commands, k - 1), commands[k - 1], before);
      var now := before && !BreaksOff(After(commands, k - 1), commands[k - 1]);
      assert now == forall i :: 0 <= i < k ==> !BreaksOff(After(commands, i), commands[i]);
    }
  }

  lemma NothingCharged()
    ensures Charged(Txn(0, 0, []), true)
  {
  }

  /** Such a batch does leave the native transaction with more than was charged. */
  lemma BrokenBatchUncharged(m: Mutation, reply: Reply)
    requires reply.open
    ensures var t := After([ApplyAll([m, m], Some(1), reply)], 1);
            ChargedBytes(m) <= 1_000 ==> t.count == 0 && |t.staged| == 1
  {
    var ms := [m, m];
    assert ms[..1] == [m];
    assert ChargedAll(ms) == ChargedAll([m]) + ChargedBytes(m);
    assert ChargedAll([m]) == ChargedAll([]) + ChargedBytes(m) by { assert [m][..0] == []; }
    assert After([ApplyAll(ms, Some(1), reply)], 0) == Txn(0, 0, []);
  }
}
