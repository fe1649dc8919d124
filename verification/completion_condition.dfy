/**
  Completion conditions (completion_condition.hpp): how many bytes a composed operation may
  transfer next, given how many it has transferred.
 */
module CompletionConditions {
  import opened Buffers

  const DEFAULT_MAX_TRANSFER_SIZE: nat := 65536

  datatype Condition = TransferAll | TransferAtLeast(minimum: nat) | TransferExactly(size: nat)
  {
    /** The most bytes to transfer in the next operation; zero means complete. */
    function Ask(err: bool, transferred: nat): nat {
      match this
      case TransferAll =>
        if err then 0 else DEFAULT_MAX_TRANSFER_SIZE
      case TransferAtLeast(minimum) =>
        if err || transferred >= minimum then 0 else DEFAULT_MAX_TRANSFER_SIZE
      case TransferExactly(size) =>
        if err || transferred >= size then 0
        else if size - transferred < DEFAULT_MAX_TRANSFER_SIZE then size - transferred
        else DEFAULT_MAX_TRANSFER_SIZE
    }

    /** What the documentation promises about an error-free transfer of `total` bytes when
        there were `available` to transfer. */
    predicate Promise(total: nat, available: nat) {
      match this
      case TransferAll => total == available
      case TransferAtLeast(minimum) =>
        && Min(minimum, available) <= total <= available
        && total <= if minimum == 0 then 0 else minimum + DEFAULT_MAX_TRANSFER_SIZE - 1
      case TransferExactly(size) => total == Min(size, available)
    }

    /** As long as less than this was moved, and there is no error, more is asked for. */
    function Goal(available: nat): nat {
      match this
      case TransferAll => available
      case TransferAtLeast(minimum) => Min(minimum, available)
      case TransferExactly(size) => Min(size, available)
    }

    /** What holds all along. */
    predicate Within(total: nat) {
      match this
      case TransferAll => true
      case TransferAtLeast(minimum) => total == 0 || (minimum > 0 && total < minimum + DEFAULT_MAX_TRANSFER_SIZE)
      case TransferExactly(size) => total <= size
    }
  }

  // ---------------------------------------------------------------- runs

  /** All the bytes moved. */
  function Sum(moves: seq<nat>): nat {
    if moves == [] then 0 else Sum(moves[..|moves| - 1]) + moves[|moves| - 1]
  }

  lemma SumNext(moves: seq<nat>, m: nat)
    ensures Sum(moves + [m]) == Sum(moves) + m
  {
    assert (moves + [m])[..|moves|] == moves;
  }

  /** An error-free run: every operation moves at least one byte and at most as many as
      the condition granted. */
  ghost predicate Granted(c: Condition, moves: seq<nat>) {
    moves != [] ==>
      var before := moves[..|moves| - 1];
      Granted(c, before) && 1 <= moves[|moves| - 1] <= c.Ask(false, Sum(before))
  }

  /** Over every such run: the bounds hold throughout, no run is longer than the number
      of bytes it moved, and a run that the condition ends keeps the promise. */
  lemma {:induction false} GrantedRun(c: Condition, moves: seq<nat>)
    requires Granted(c, moves)
    ensures c.Within(Sum(moves)) && Sum(moves) >= |moves|
    ensures c.Ask(false, Sum(moves)) == 0 ==>
              match c
              case TransferAll => false
              case TransferAtLeast(m) => m <= Sum(moves) && (if m == 0 then moves == [] else Sum(moves) <= m + 65535)
              case TransferExactly(s) => Sum(moves) == s
  {
    if moves != [] {
      GrantedRun(c, moves[..|moves| - 1]);
    }
  }

  /** Moving at most what the condition granted keeps its bounds, and when it grants no
      more, or nothing is left, its promise holds. */
  lemma KeepsPromise(c: Condition, total: nat, n: nat, available: nat)
    requires c.Within(total) && total <= available
    ensures n <= c.Ask(false, total) ==> c.Within(total + n)
    ensures c.Ask(false, total) == 0 || total == available ==> c.Promise(total, available)
    ensures c.Ask(true, total) == 0
    ensures total < c.Goal(available) ==> c.Ask(false, total) > 0
    ensures c.Ask(false, total) > 0 && total < available ==> total < c.Goal(available)
  {
  }

  /** The promises in numbers, and that they can be kept: a total keeps the promise if and only
      if it is one of these. */
  lemma PromiseMeans(c: Condition, total: nat, available: nat)
    ensures c.Promise(total, available) <==>
            match c
            case TransferAll => total == available
            case TransferAtLeast(m) =>
              if m == 0 then total == 0
              else total <= available && (m <= total <= m + 65535 || total == available < m)
            case TransferExactly(s) => total == s <= available || total == available < s
  {
  }

  // ---------------------------------------------------------------- the bounds are attained

  /** Exactly how a run can go on: by up to 65536 bytes, as long as transfer_at_least has less
      than its minimum, and transfer_exactly not more than what is missing. */
  lemma GrantedNext(c: Condition, moves: seq<nat>, k: nat)
    ensures Granted(c, moves + [k]) <==>
            && Granted(c, moves) && 1 <= k <= 65536
            && match c
               case TransferAll => true
               case TransferAtLeast(minimum) => Sum(moves) < minimum
               case TransferExactly(size) => Sum(moves) + k <= size
  {
    assert (moves + [k])[..|moves|] == moves;
  }

  /** A run goes on. */
  lemma RunOn(c: Condition, moves: seq<nat>, k: nat)
    requires Granted(c, moves) && 1 <= k <= c.Ask(false, Sum(moves))
    ensures Granted(c, moves + [k]) && Sum(moves + [k]) == Sum(moves) + k
  {
    GrantedNext(c, moves, k);
    SumNext(moves, k);
  }

  /** transfer_all grants 65536 bytes over and over. */
  lemma {:induction false} AllAttained(k: nat) returns (moves: seq<nat>)
    ensures Granted(TransferAll, moves) && |moves| == k && Sum(moves) == 65536 * k
  {
    moves := [];
    if k > 0 {
      moves := AllAttained(k - 1);
      RunOn(TransferAll, moves, 65536);
      moves := moves + [65536];
    }
  }

  lemma {:induction false} OnesGranted(minimum: nat, k: nat) returns (moves: seq<nat>)
    requires k <= minimum
    ensures Granted(TransferAtLeast(minimum), moves) && |moves| == Sum(moves) == k
  {
    moves := [];
    if k > 0 {
      moves := OnesGranted(minimum, k - 1);
      RunOn(TransferAtLeast(minimum), moves, 1);
      moves := moves + [1];
    }
  }

  /** transfer_at_least may end anywhere from its minimum on up to 65535 bytes above it. */
  lemma AtLeastAttained(minimum: nat, total: nat) returns (moves: seq<nat>)
    requires 0 < minimum <= total <= minimum + 65535
    ensures Granted(TransferAtLeast(minimum), moves) && Sum(moves) == total
    ensures TransferAtLeast(minimum).Ask(false, total) == 0
  {
    var last: nat := total - (minimum - 1);
    moves := OnesGranted(minimum, minimum - 1);
    RunOn(TransferAtLeast(minimum), moves, last);
    moves := moves + [last];
  }

  lemma {:induction false} BlocksGranted(size: nat, k: nat) returns (moves: seq<nat>)
    requires 65536 * k <= size
    ensures Granted(TransferExactly(size), moves) && |moves| == k && Sum(moves) == 65536 * k
  {
    moves := [];
    if k > 0 {
      moves := BlocksGranted(size, k - 1);
      RunOn(TransferExactly(size), moves, 65536);
      moves := moves + [65536];
    }
  }

  lemma {:induction false} LongEnough(c: Condition, moves: seq<nat>)
    requires Granted(c, moves)
    ensures Sum(moves) <= 65536 * |moves|
  {
    if moves != [] {
      LongEnough(c, moves[..|moves| - 1]);
    }
  }

  /** transfer_exactly can be through with as few operations of up to 65536 bytes as it takes
      for its size ... */
  lemma ExactlyAttained(size: nat) returns (moves: seq<nat>)
    ensures Granted(TransferExactly(size), moves) && Sum(moves) == size
    ensures 65536 * |moves| < size + 65536 && TransferExactly(size).Ask(false, size) == 0
  {
    var k: nat, rest: nat := size / 65536, size % 65536;
    moves := BlocksGranted(size, k);
    if rest > 0 {
      RunOn(TransferExactly(size), moves, rest);
      moves := moves + [rest];
    }
  }

  /** ... and never with fewer. */
  lemma ExactlyIsFewest(size: nat, moves: seq<nat>, others: seq<nat>)
    requires 65536 * |moves| < size + 65536
    requires Granted(TransferExactly(size), others) && TransferExactly(size).Ask(false, Sum(others)) == 0
    ensures |others| >= |moves|
  {
    LongEnough(TransferExactly(size), others);
    GrantedRun(TransferExactly(size), others);
  }
}
