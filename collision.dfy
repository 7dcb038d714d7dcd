/** Choosing the key a translation string is stored under: the counter that
    makes the derived key unique, and the prompts that let the user pick
    another key until it is free. */
module Collision {
  import opened Strings

  /** `f"{default_key_base}_{index}"`. */
  function Suffixed(base: string, n: nat): string {
    base + "_" + Decimal(n)
  }

  /** The key the counter loop tries after `n` collisions: the base itself,
      then `base_1`, `base_2`, and so on. */
  function Candidate(base: string, n: nat): string {
    if n == 0 then base else Suffixed(base, n)
  }

  /** The counter loop never tries the same key twice. */
  lemma CandidateInjective(base: string, m: nat, n: nat)
    requires Candidate(base, m) == Candidate(base, n)
    ensures m == n
  {
    if m > 0 && n > 0 {
      var prefix := base + "_";
      assert Candidate(base, m)[|prefix|..] == Decimal(m);
      assert Candidate(base, n)[|prefix|..] == Decimal(n);
      DecimalInjective(m, n);
    }
  }

  /** The keys tried before the `n`-th one. */
  function Tried(base: string, n: nat): set<string> {
    if n == 0 then {} else Tried(base, n - 1) + {Candidate(base, n - 1)}
  }

  lemma {:induction false} TriedHas(base: string, n: nat, m: nat)
    ensures Candidate(base, m) in Tried(base, n) <==> m < n
  {
    if n > 0 {
      TriedHas(base, n - 1, m);
      if Candidate(base, m) == Candidate(base, n - 1) {
        CandidateInjective(base, m, n - 1);
      }
    }
  }

  lemma {:induction false} TriedSize(base: string, n: nat)
    ensures |Tried(base, n)| == n
  {
    if n > 0 {
      TriedSize(base, n - 1);
      TriedHas(base, n - 1, n - 1);
    }
  }

  lemma SubsetSize<T>(a: set<T>, b: set<T>)
    requires a <= b
    ensures |a| <= |b|
  {
    assert b == a + (b - a);
  }

  /** `key` is what the counter loop ends with: the first candidate that is
      not taken. */
  ghost predicate FirstFree(base: string, taken: set<string>, key: string) {
    exists n: nat :: key == Candidate(base, n) && Tried(base, n) <= taken && key !in taken
  }

  /** The end of the counter loop is determined by the base and the taken keys. */
  lemma FirstFreeUnique(base: string, taken: set<string>, k1: string, k2: string)
    requires FirstFree(base, taken, k1) && FirstFree(base, taken, k2)
    ensures k1 == k2
  {
    var n1: nat :| k1 == Candidate(base, n1) && Tried(base, n1) <= taken && k1 !in taken;
    var n2: nat :| k2 == Candidate(base, n2) && Tried(base, n2) <= taken && k2 !in taken;
    if n1 < n2 {
      TriedHas(base, n2, n1);
    } else if n2 < n1 {
      TriedHas(base, n1, n2);
    }
  }

  /** The first candidate from the `n`-th on that is not taken. */
  function FreeFrom(base: string, taken: set<string>, n: nat): (k: string)
    requires Tried(base, n) <= taken
    ensures FirstFree(base, taken, k)
    decreases |taken| - n
  {
    if Candidate(base, n) !in taken then Candidate(base, n)
    else
      TriedSize(base, n + 1);
      SubsetSize(Tried(base, n + 1), taken);
      FreeFrom(base, taken, n + 1)
  }

  /** The key the counter loop settles on. */
  function FirstFreeKey(base: string, taken: set<string>): (k: string)
    ensures FirstFree(base, taken, k)
  {
    FreeFrom(base, taken, 0)
  }

  /** The counter loop of `process_file`: starting from the derived key, try
      `base_1`, `base_2`, ... until a key is neither in use nor among the new
      entries (`taken` is both). It stops after at most `|taken|` collisions. */
  method DefaultKey(base: string, taken: set<string>) returns (key: string)
    ensures key !in taken
    ensures FirstFree(base, taken, key)
    ensures base !in taken ==> key == base
    ensures exists n: nat :: n <= |taken| && key == Candidate(base, n)
    ensures key == FirstFreeKey(base, taken)
  {
    key := base;
    var index := 1;
    while key in taken
      invariant index >= 1
      invariant key == Candidate(base, index - 1)
      invariant Tried(base, index - 1) <= taken
      invariant index - 1 <= |taken|
      invariant base !in taken ==> index == 1
      decreases |taken| - (index - 1)
    {
      TriedSize(base, index);
      SubsetSize(Tried(base, index), taken);
      key := base + "_" + Decimal(index);
      index := index + 1;
    }
    ghost var n: nat := index - 1;
    assert key == Candidate(base, n) && Tried(base, n) <= taken;
    FirstFreeUnique(base, taken, key, FirstFreeKey(base, taken));
  }

  /** The answer to the prompt at position `pos`, already stripped of
      surrounding whitespace; a user who has stopped answering gives a blank. */
  function Answer(answers: seq<string>, pos: nat): string {
    if pos < |answers| then answers[pos] else ""
  }

  /** The re-prompt loop: while `key` is taken, read the next answer, a blank
      one standing for the default key. The result is the key and the
      position of the next unread answer. */
  function Settle(key: string, defaultKey: string, taken: set<string>, answers: seq<string>, pos: nat): (r: (string, nat))
    requires defaultKey !in taken
    ensures r.0 !in taken
    ensures pos <= r.1
    ensures key !in taken ==> r == (key, pos)
    ensures key in taken ==>
      r.0 == defaultKey || exists j :: pos <= j < r.1 && j < |answers| && r.0 == answers[j] && answers[j] != ""
    decreases if pos < |answers| then |answers| - pos else 0, if key in taken then 1 else 0
  {
    if key !in taken then (key, pos)
    else
      var a := Answer(answers, pos);
      Settle(if a == "" then defaultKey else a, defaultKey, taken, answers, pos + 1)
  }

  /** The prompts of `process_file`: the first answer, or the default when it
      is blank, then the re-prompt loop. They always end with a free key,
      which is the default or a non-blank answer the user typed, and they
      read at least one answer. */
  function Prompted(defaultKey: string, taken: set<string>, answers: seq<string>): (r: (string, nat))
    requires defaultKey !in taken
    ensures r.0 !in taken
    ensures r.1 >= 1
    ensures r.0 == defaultKey || (r.0 in answers && r.0 != "")
    ensures r.0 == defaultKey || exists j :: 0 <= j < r.1 && j < |answers| && r.0 == answers[j] && answers[j] != ""
  {
    var a := Answer(answers, 0);
    Settle(if a == "" then defaultKey else a, defaultKey, taken, answers, 1)
  }

  /** A blank first answer accepts the default at once. */
  lemma BlankTakesDefault(defaultKey: string, taken: set<string>, answers: seq<string>)
    requires defaultKey !in taken
    requires Answer(answers, 0) == ""
    ensures Prompted(defaultKey, taken, answers) == (defaultKey, 1)
  {
  }

  /** A first answer that is free is taken as the key. */
  lemma FreeAnswerAccepted(defaultKey: string, taken: set<string>, answers: seq<string>)
    requires defaultKey !in taken
    requires answers != [] && answers[0] != "" && answers[0] !in taken
    ensures Prompted(defaultKey, taken, answers) == (answers[0], 1)
  {
  }

  /** An answer that is taken is never accepted. */
  lemma TakenAnswerRejected(defaultKey: string, taken: set<string>, answers: seq<string>)
    requires defaultKey !in taken
    requires answers != [] && answers[0] != "" && answers[0] in taken
    ensures Prompted(defaultKey, taken, answers).0 != answers[0]
    ensures Prompted(defaultKey, taken, answers).1 >= 2
  {
    var a := Answer(answers, 1);
    assert Prompted(defaultKey, taken, answers)
        == Settle(if a == "" then defaultKey else a, defaultKey, taken, answers, 2);
  }

  /** The prompts of `process_file` as the loop it runs: the answers are read
      from the front of `answers`; `used` says how many were read. */
  method ResolveKey(defaultKey: string, taken: set<string>, answers: seq<string>) returns (key: string, used: nat)
    requires defaultKey !in taken
    ensures (key, used) == Prompted(defaultKey, taken, answers)
  {
    var input := Answer(answers, 0);
    used := 1;
    key := if input != "" then input else defaultKey;
    while key in taken
      invariant used >= 1
      invariant Settle(key, defaultKey, taken, answers, used) == Prompted(defaultKey, taken, answers)
      decreases if used < |answers| then |answers| - used else 0, if key in taken then 1 else 0
    {
      key := Answer(answers, used);
      used := used + 1;
      if key == "" {
        key := defaultKey;
      }
    }
  }
}
