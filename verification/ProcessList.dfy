/** The controller's process-list loop (`user/controller.cpp`) against the driver's reply
    (`driver/deduper.cpp`), with a process table that may change between calls. */
module ProcessList {
  import opened Options

  const WORD: nat := 8
  const INITIAL_WORDS: nat := 8

  type Word = nat

  /** The outcome of `DeviceIoControl`: a warning or an error reads as a failed call. */
  datatype Outcome = Ok | MoreData | InsufficientBuffer | OtherError

  function Min(a: nat, b: nat): nat {
    if a < b then a else b
  }

  // ----- the driver's side -----

  /** What one call reads: the size of the table, taken without the mutex, and afterwards the
      table, which may have changed since. */
  datatype Reading = Reading(counted: nat, table: seq<Word>)

  /** What the driver writes into a buffer of at least one word: the size it counted, then as
      much of the table as fits.  What follows stays as it was. */
  function Filled(reading: Reading, buffer: seq<Word>): seq<Word>
    requires |buffer| >= 1
  {
    var n := Min(|reading.table|, |buffer| - 1);
    [reading.counted] + reading.table[..n] + buffer[n + 1..]
  }

  function RequiredBytes(counted: nat): nat {
    WORD + counted * WORD
  }

  /** `ListOptedInProcesses`: copies entries until the table or the buffer ends, and reports
      the size it would have needed for the number it counted. */
  method ListOptedInProcesses(reading: Reading, buffer: seq<Word>)
    returns (outcome: Outcome, information: nat, written: seq<Word>)
    ensures |written| == |buffer|
    ensures |buffer| == 0 ==> outcome == InsufficientBuffer && information == WORD
    ensures |buffer| >= 1 ==>
              && written == Filled(reading, buffer) && information == RequiredBytes(reading.counted)
              && outcome == if |buffer| <= reading.counted then MoreData else Ok
    ensures |buffer| >= 1 ==>
              && written[0] == reading.counted && information == 8 + 8 * reading.counted
              && forall k :: 0 < k < |buffer| ==>
                   written[k] == if k <= |reading.table| then reading.table[k - 1] else buffer[k]
  {
    var totalProcesses, table := reading.counted, reading.table;
    var requiredBytes := WORD + totalProcesses * WORD;
    var outputBufferLength := |buffer| * WORD;
    if outputBufferLength < WORD {
      return InsufficientBuffer, WORD, buffer;
    }
    var maxEntries := (outputBufferLength - WORD) / WORD;
    assert maxEntries == |buffer| - 1;
    var filled := 0;
    written := buffer;
    while filled < |table| && filled < maxEntries
      invariant filled <= Min(|table|, maxEntries)
      invariant |written| == |buffer|
      invariant forall k :: 0 < k <= filled ==> written[k] == table[k - 1]
      invariant forall k :: filled < k < |buffer| ==> written[k] == buffer[k]
    {
      written := written[1 + filled := table[filled]];
      filled := filled + 1;
    }
    written := written[0 := totalProcesses];
    assert written == Filled(reading, buffer);
    information := requiredBytes;
    outcome := if outputBufferLength < requiredBytes then MoreData else Ok;
  }

  // ----- the controller's side -----

  datatype Listing = Failed | UnexpectedSize | Listed(count: Word, printed: seq<Word>)

  /** What the driver reads at each call; None where the call fails for another reason. */
  type Environment = nat -> Option<Reading>

  /** The first calls all counted more entries than fit the buffer they brought, and each brought
      what the previous one had been told. */
  ghost predicate AllOverflowed(env: Environment, calls: nat) {
    forall c: nat :: c < calls ==> Overflowed(env, c)
  }

  predicate Overflowed(env: Environment, call: nat) {
    env(call).Some? && WordsAt(env, call) <= env(call).value.counted
  }

  /** The size of the buffer brought to a call. */
  function WordsAt(env: Environment, call: nat): nat {
    if call == 0 || env(call - 1).None? then INITIAL_WORDS else 1 + env(call - 1).value.counted
  }

  /** Overflowing calls bring ever larger buffers. */
  lemma {:induction false} BuffersGrow(env: Environment, calls: nat)
    requires AllOverflowed(env, calls)
    ensures WordsAt(env, calls) >= INITIAL_WORDS + calls
  {
    if calls > 0 {
      BuffersGrow(env, calls - 1);
      assert Overflowed(env, calls - 1);
    }
  }

  /** The buffer holds the count and, as far as it was counted, the table. */
  predicate HoldsCounted(buffer: seq<Word>, reading: Reading) {
    var n := Min(|reading.table|, reading.counted);
    && reading.counted < |buffer| && buffer[0] == reading.counted
    && buffer[1..n + 1] == reading.table[..n]
  }

  /** Beyond the table the buffer is as it was brought. */
  predicate KeepsRest(reading: Reading, brought: seq<Word>, buffer: seq<Word>) {
    |brought| == |buffer| && forall k :: |reading.table| < k < |buffer| ==> buffer[k] == brought[k]
  }

  lemma FilledHoldsCounted(reading: Reading, buffer: seq<Word>)
    requires reading.counted < |buffer|
    ensures |Filled(reading, buffer)| == |buffer| && Filled(reading, buffer)[0] == reading.counted
    ensures HoldsCounted(Filled(reading, buffer), reading)
    ensures KeepsRest(reading, buffer, Filled(reading, buffer))
  {}

  /** As many entries as were counted, of which the first are the table's; the whole table exactly
      when it held as many entries when it was copied. */
  predicate Prints(reading: Reading, printed: seq<Word>) {
    && |printed| == reading.counted
    && (forall k :: 0 <= k < Min(|reading.table|, reading.counted) ==> printed[k] == reading.table[k])
    && (printed == reading.table <==> |reading.table| == reading.counted)
  }

  lemma CountedIsPrinted(reading: Reading, buffer: seq<Word>)
    requires HoldsCounted(buffer, reading)
    ensures Prints(reading, buffer[1..reading.counted + 1])
  {
    var n := Min(|reading.table|, reading.counted);
    assert buffer[1..reading.counted + 1][..n] == buffer[1..n + 1];
  }

  /** `std::vector::resize`. */
  function Resized(buffer: seq<Word>, size: nat): (r: seq<Word>)
    ensures |r| == size
    ensures forall i :: 0 <= i < size ==> r[i] == if i < |buffer| then buffer[i] else 0
  {
    if size > |buffer| then buffer + seq(size - |buffer|, _ => 0) else buffer[..size]
  }

  /** The buffer brought to a call after overflowing ones: it keeps what those left in it. */
  function Brought(env: Environment, call: nat): (buffer: seq<Word>)
    ensures |buffer| == WordsAt(env, call) >= 1
  {
    if call == 0 || env(call - 1).None? then seq(INITIAL_WORDS, _ => 0)
    else Resized(Filled(env(call - 1).value, Brought(env, call - 1)), WordsAt(env, call))
  }

  /** The list command.  `bound` limits the counts, `calls` counts the calls made. */
  method ListProcesses(env: Environment, bound: nat) returns (listing: Listing, calls: nat)
    requires forall c :: env(c).Some? ==> env(c).value.counted <= bound
    requires (bound + 1) * WORD < 0x1_0000_0000  // sizes are passed as 32-bit byte counts
    ensures calls >= 1 && AllOverflowed(env, calls - 1)
    ensures calls <= 1 + (if bound < INITIAL_WORDS then 0 else bound - INITIAL_WORDS + 1)
    ensures match env(calls - 1)
            case None => listing == Failed
            case Some(reading) =>
              && reading.counted < WordsAt(env, calls - 1)
              && listing.Listed? && listing.count == reading.counted && Prints(reading, listing.printed)
              && (forall k :: |reading.table| <= k < reading.counted ==>
                    listing.printed[k] == Brought(env, calls - 1)[k + 1])
  {
    hide Filled, HoldsCounted, Prints, Resized;
    var buffer := seq(INITIAL_WORDS, _ => 0);
    var retry, success, bytesReturned := true, false, 0;
    calls := 0;
    while retry
      invariant retry ==> buffer == Brought(env, calls) && AllOverflowed(env, calls)
      invariant !retry ==> calls >= 1 && AllOverflowed(env, calls - 1) && (success <==> env(calls - 1).Some?)
      invariant success ==> !retry && HoldsCounted(buffer, env(calls - 1).value)
      invariant success ==>
                  && env(calls - 1).value.counted < |buffer| == WordsAt(env, calls - 1)
                  && buffer[0] == env(calls - 1).value.counted && bytesReturned == RequiredBytes(buffer[0])
                  && KeepsRest(env(calls - 1).value, Brought(env, calls - 1), buffer)
      invariant INITIAL_WORDS <= |buffer| <= (if bound < INITIAL_WORDS then INITIAL_WORDS else bound + 1)
      decreases retry, bound + 1 - |buffer|
    {
      var result := OtherError;
      var reading := env(calls);
      if reading.Some? {
        ghost var brought := buffer;
        result, bytesReturned, buffer := ListOptedInProcesses(reading.value, buffer);
        if result == Ok {
          FilledHoldsCounted(reading.value, brought);
        }
      }
      calls := calls + 1;
      if result == Ok {
        success := true;
        retry := false;
      } else {
        if (result == MoreData || result == InsufficientBuffer) && bytesReturned > 0 {
          var nextSize := (bytesReturned + WORD - 1) / WORD;
          if nextSize <= |buffer| {
            nextSize := |buffer| * 2;
          }
          assert nextSize == 1 + reading.value.counted == WordsAt(env, calls);
          buffer := Resized(buffer, nextSize);
          continue;
        }
        retry := false;
      }
    }
    BuffersGrow(env, calls - 1);
    if !success {
      return Failed, calls;
    }
    if bytesReturned < WORD {
      return UnexpectedSize, calls;
    }
    var count := buffer[0];
    var printable := count;
    if printable > |buffer| - 1 {
      printable := |buffer| - 1;
    }
    listing := Listed(count, buffer[1..printable + 1]);
    CountedIsPrinted(env(calls - 1).value, buffer);
  }

  /** With an unchanging table, two calls are enough, and one is exactly when the table fits
      the first buffer. */
  lemma UnchangingTableNeedsTwoCalls(env: Environment, calls: nat, table: seq<Word>)
    requires forall c :: env(c) == Some(Reading(|table|, table))
    requires calls >= 1 && AllOverflowed(env, calls - 1) && |table| < WordsAt(env, calls - 1)
    ensures calls == if |table| < 8 then 1 else 2
  {
    SecondBufferFits(env, table);
  }

  lemma SecondBufferFits(env: Environment, table: seq<Word>)
    requires forall c :: env(c) == Some(Reading(|table|, table))
    ensures Overflowed(env, 0) <==> INITIAL_WORDS <= |table|
    ensures !Overflowed(env, 1)
    ensures WordsAt(env, 0) == INITIAL_WORDS
  {}
}
