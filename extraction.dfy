/** `process_file`: every `__()` call with a literal text gets a key, the
    call is rewritten to use `namespace.key`, and the text becomes a new
    catalog entry. The keys in use and the answers still to be typed are
    state shared by all the files of one run. */
module Extraction {
  import opened Strings
  import opened KeyGen
  import opened Catalog
  import opened Collision

  datatype Option<T> = None | Some(value: T)

  /** One `__()` call found by the pattern of `process_file`: the whole call,
      the quoted text, and the extra arguments (empty when there are none). */
  datatype Match = Match(full: string, text: string, args: string)

  /** `f'__("{translation_file_name}.{key}"{additional_args})'`. */
  function NewCall(ns: string, key: string, args: string): string {
    "__(\"" + ns + "." + key + "\"" + args + ")"
  }

  /** A text that already looks like a key is left alone. */
  predicate Skipped(m: Match) {
    IsKeyReference(m.text)
  }

  /** The matches that get a key, in order. */
  function Pending(ms: seq<Match>): (r: seq<Match>)
    ensures |r| <= |ms|
  {
    if ms == [] then []
    else
      var last := ms[|ms| - 1];
      Pending(ms[..|ms| - 1]) + (if Skipped(last) then [] else [last])
  }

  /** A call gets a key exactly when its text does not look like a key. */
  lemma {:induction false} PendingMembers(ms: seq<Match>, m: Match)
    ensures m in Pending(ms) <==> m in ms && !Skipped(m)
  {
    if ms != [] {
      var init := ms[..|ms| - 1];
      var last := ms[|ms| - 1];
      PendingMembers(init, m);
      assert ms == init + [last];
    }
  }

  function KeyList(d: seq<Entry>): (r: seq<string>)
    ensures |r| == |d|
    ensures forall i :: 0 <= i < |d| ==> r[i] == d[i].key
  {
    seq(|d|, i requires 0 <= i < |d| => d[i].key)
  }

  /** The file text after each pending call has been replaced, one after the
      other, by the call that uses its key: `content.replace(full_match, new_call)`. */
  function Rewrite(content: string, ns: string, ms: seq<Match>, keys: seq<string>): string
    requires |ms| == |keys|
  {
    if ms == [] then content
    else
      var n := |ms| - 1;
      ReplaceAll(Rewrite(content, ns, ms[..n], keys[..n]), ms[n].full, NewCall(ns, keys[n], ms[n].args))
  }

  /** `str.replace` of a call that no longer occurs changes nothing, so a
      rewrite leaves alone a text in which none of its calls occurs. */
  lemma {:induction false} RewriteAbsent(content: string, ns: string, ms: seq<Match>, keys: seq<string>)
    requires |ms| == |keys|
    requires forall j :: 0 <= j < |ms| ==> ms[j].full != [] && !Occurs(ms[j].full, content)
    ensures Rewrite(content, ns, ms, keys) == content
    decreases |ms|
  {
    if ms != [] {
      var n := |ms| - 1;
      RewriteAbsent(content, ns, ms[..n], keys[..n]);
      ReplaceAllAbsent(content, ms[n].full, NewCall(ns, keys[n], ms[n].args));
    }
  }

  /** How a key was chosen: it was not taken, and it is either the first free
      key derived from the text or a non-blank answer the user typed. */
  ghost predicate Chosen(e: Entry, taken: set<string>, answers: seq<string>) {
    e.key !in taken && (FirstFree(GenerateKey(e.value), taken, e.key) || (e.key in answers && e.key != ""))
  }

  predicate IsSuffix(s: seq<string>, t: seq<string>) {
    |s| <= |t| && s == t[|t| - |s|..]
  }

  /** The answers left once `n` have been read; past the last answer the
      user gives only blanks. */
  function Unread(answers: seq<string>, n: nat): (r: seq<string>)
    ensures IsSuffix(r, answers)
    ensures n >= 1 && answers != [] ==> |r| < |answers|
  {
    if n <= |answers| then answers[n..] else []
  }

  /** The key minted for `text` while `used` holds the keys in use: the
      counter loop gives the default, the prompts give the key. The result is
      the key and the answers left unread. */
  function Mint(text: string, used: set<string>, answers: seq<string>): (r: (string, seq<string>))
    ensures r.0 !in used
    ensures FirstFree(GenerateKey(text), used, r.0) || (r.0 in answers && r.0 != "")
    ensures IsSuffix(r.1, answers)
    ensures answers != [] ==> |r.1| < |answers|
  {
    var defaultKey := FirstFreeKey(GenerateKey(text), used);
    var p := Prompted(defaultKey, used, answers);
    (p.0, Unread(answers, p.1))
  }

  /** What the loop of `process_file` threads from one call to the next:
      `used_keys`, the answers still to be typed, `new_entries` and the file
      text. */
  datatype FileState = FileState(used: set<string>, answers: seq<string>, entries: Dict, content: string)

  /** One turn of the loop: a call whose text looks like a key changes
      nothing; any other gets a key, a new entry and its rewrite. The key is
      fresh, so `new_entries[key] = text` appends. */
  function Step(ns: string, st: FileState, m: Match): FileState {
    if Skipped(m) then st
    else
      var r := Mint(m.text, st.used, st.answers);
      FileState(st.used + {r.0}, r.1, st.entries + [Entry(r.0, m.text)],
                ReplaceAll(st.content, m.full, NewCall(ns, r.0, m.args)))
  }

  /** The loop of `process_file` over the calls `ms`, in order. */
  function Loop(ns: string, ms: seq<Match>, st: FileState): FileState {
    if ms == [] then st else Step(ns, Loop(ns, ms[..|ms| - 1], st), ms[|ms| - 1])
  }

  /** A file whose calls all look like keys is left as it was: no entry is
      added, no answer is read and the text is unchanged, so the file is not
      written back. */
  lemma {:induction false} NothingPending(ns: string, ms: seq<Match>, st: FileState)
    requires Pending(ms) == []
    ensures Loop(ns, ms, st) == st
    decreases |ms|
  {
    if ms != [] {
      NothingPending(ns, ms[..|ms| - 1], st);
    }
  }

  /** One turn of the loop keeps `Progress`, with the call added to the
      pending ones when it is not skipped. */
  lemma StepProgress(text: string, ns: string, pending: seq<Match>, used0: set<string>, answers0: seq<string>,
                     st: FileState, m: Match)
    requires Progress(text, ns, pending, used0, answers0, st.entries, st.content, st.used, st.answers)
    ensures var st' := Step(ns, st, m);
      Progress(text, ns, pending + (if Skipped(m) then [] else [m]), used0, answers0,
               st'.entries, st'.content, st'.used, st'.answers)
  {
    if Skipped(m) {
      assert pending + [] == pending;
    } else {
      var r := Mint(m.text, st.used, st.answers);
      ProgressMint(text, ns, pending, used0, answers0, st.entries, st.content, st.used, st.answers, m, r.0, r.1);
    }
  }

  /** The loop of `process_file` gives the entries, the keys in use, the
      answers and the text `Progress` describes for its pending calls. */
  lemma {:induction false} LoopProgress(text: string, ns: string, ms: seq<Match>, used0: set<string>, answers0: seq<string>)
    ensures var st := Loop(ns, ms, FileState(used0, answers0, [], text));
      Progress(text, ns, Pending(ms), used0, answers0, st.entries, st.content, st.used, st.answers)
    decreases |ms|
  {
    if ms == [] {
      assert Keys([]) == {};
    } else {
      var n := |ms| - 1;
      LoopProgress(text, ns, ms[..n], used0, answers0);
      StepProgress(text, ns, Pending(ms[..n]), used0, answers0, Loop(ns, ms[..n], FileState(used0, answers0, [], text)), ms[n]);
    }
  }

  /** The new entries of the loop have distinct keys, all of them in use. */
  lemma LoopKeys(text: string, ns: string, ms: seq<Match>, used0: set<string>, answers0: seq<string>)
    ensures var st := Loop(ns, ms, FileState(used0, answers0, [], text));
      DistinctKeys(st.entries) && Keys(st.entries) <= st.used
  {
    LoopProgress(text, ns, ms, used0, answers0);
  }

  /** The loop adds an entry exactly when some call is pending. */
  lemma LoopUpdates(text: string, ns: string, ms: seq<Match>, used0: set<string>, answers0: seq<string>)
    ensures var st := Loop(ns, ms, FileState(used0, answers0, [], text));
      st.entries != [] <==> Pending(ms) != []
  {
    LoopProgress(text, ns, ms, used0, answers0);
  }

  datatype FileResult = FileResult(newEntries: Dict, updated: bool, content: string)

  /** The state `process_file` shares across files: `used_keys`, and the
      answers the user has yet to type at the prompts. */
  class Migration {
    var used: set<string>
    var answers: seq<string>

    /** `used_keys = set(existing_translations.keys())`. */
    constructor (existing: Dict, answers: seq<string>)
      ensures used == Keys(existing)
      ensures this.answers == answers
    {
      used := Keys(existing);
      this.answers := answers;
    }

    /** The key for one translation string: the counter loop gives the
        default, the prompts give the key, and the key is added to
        `used_keys`. */
    method MintKey(text: string) returns (key: string)
      modifies this
      ensures (key, answers) == Mint(text, old(used), old(answers))
      ensures used == old(used) + {key}
    {
      var defaultKey := DefaultKey(GenerateKey(text), used);
      var read;
      key, read := ResolveKey(defaultKey, used, answers);
      answers := Unread(answers, read);
      used := used + {key};
    }

    /** One turn of the loop of `process_file`: a call whose text looks like
        a key is skipped and changes nothing; otherwise its text gets a key,
        becomes a new entry, and the call is rewritten in the file text. */
    method ProcessMatch(ns: string, m: Match, newEntries: Dict, content: string)
      returns (newEntries': Dict, content': string, minted: bool)
      requires DistinctKeys(newEntries) && Keys(newEntries) <= used
      modifies this
      ensures minted <==> !Skipped(m)
      ensures !minted ==> newEntries' == newEntries && content' == content
                          && used == old(used) && answers == old(answers)
      ensures FileState(used, answers, newEntries', content')
           == Step(ns, FileState(old(used), old(answers), newEntries, content), m)
    {
      if IsKeyReference(m.text) {
        return newEntries, content, false;
      }
      var key := MintKey(m.text);
      newEntries' := Put(newEntries, key, m.text);
      var newCall := NewCall(ns, key, m.args);
      content' := ReplaceAll(content, m.full, newCall);
      minted := true;
    }

    /** `process_file` on a file with text `text`, whose `__()` calls the
        pattern finds as `matches`. With no match there is nothing to return;
        otherwise the result is what the loop over the matches gives, and
        the file is updated exactly when some call was given a key. */
    method ProcessFile(text: string, ns: string, matches: seq<Match>) returns (result: Option<FileResult>)
      modifies this
      ensures var st := Loop(ns, matches, FileState(old(used), old(answers), [], text));
        && used == st.used && answers == st.answers
        && result == if matches == [] then None else Some(FileResult(st.entries, st.entries != [], st.content))
      ensures result.Some? ==>
        && Progress(text, ns, Pending(matches), old(used), old(answers),
                    result.value.newEntries, result.value.content, used, answers)
        && (result.value.updated <==> Pending(matches) != [])
      ensures Pending(matches) == [] ==> used == old(used) && answers == old(answers)
    {
      if matches == [] {
        return None;
      }
      var newEntries: Dict := [];
      var content := text;
      var updated := false;
      var i := 0;
      while i < |matches|
        invariant 0 <= i <= |matches|
        invariant FileState(used, answers, newEntries, content)
               == Loop(ns, matches[..i], FileState(old(used), old(answers), [], text))
        invariant updated <==> newEntries != []
      {
        LoopKeys(text, ns, matches[..i], old(used), old(answers));
        var minted;
        newEntries, content, minted := ProcessMatch(ns, matches[i], newEntries, content);
        if minted {
          updated := true;
        }
        assert matches[..i + 1][..i] == matches[..i];
        i := i + 1;
      }
      PrefixAll(matches);
      LoopProgress(text, ns, matches, old(used), old(answers));
      LoopUpdates(text, ns, matches, old(used), old(answers));
      if Pending(matches) == [] {
        NothingPending(ns, matches, FileState(old(used), old(answers), [], text));
      }
      return Some(FileResult(newEntries, updated, content));
    }
  }

  /** The loop of `process_file` once the calls `pending` have been given
      keys: the new entries are fresh, distinct keys for their texts, each
      chosen as the prompts allow, the file text has those calls rewritten,
      `used_keys` has grown by the new keys, and answers have only been
      consumed. */
  ghost predicate Progress(text: string, ns: string, pending: seq<Match>, used0: set<string>, answers0: seq<string>,
                           newEntries: Dict, content: string, used: set<string>, answers: seq<string>)
  {
    && DistinctKeys(newEntries)
    && Keys(newEntries) !! used0
    && used == used0 + Keys(newEntries)
    && |newEntries| == |pending|
    && (forall j :: 0 <= j < |newEntries| ==> newEntries[j].value == pending[j].text)
    && ChosenInOrder(newEntries, used0, answers0)
    && content == Rewrite(text, ns, pending, KeyList(newEntries))
    && IsSuffix(answers, answers0)
  }

  /** What `process_file` guarantees of each new entry: its key was not in
      use and differs from every earlier new key, its value is the text of the
      call it came from, and the key is the first free one derived from that
      text or a non-blank answer the user typed. */
  lemma ProgressEntries(text: string, ns: string, pending: seq<Match>, used0: set<string>, answers0: seq<string>,
                        newEntries: Dict, content: string, used: set<string>, answers: seq<string>, j: nat)
    requires Progress(text, ns, pending, used0, answers0, newEntries, content, used, answers)
    requires j < |newEntries|
    ensures newEntries[j].key !in used0 && newEntries[j].key in used
    ensures forall k :: 0 <= k < j ==> newEntries[k].key != newEntries[j].key
    ensures newEntries[j].value == pending[j].text
    ensures FirstFree(GenerateKey(pending[j].text), used0 + Keys(newEntries[..j]), newEntries[j].key)
         || (newEntries[j].key in answers0 && newEntries[j].key != "")
  {
    ChosenInOrderAt(newEntries, used0, answers0, j);
    assert newEntries[j] in newEntries;
  }

  /** The same call written twice in a file is given two different keys and
      two catalog entries holding the same text, although the first
      replacement already rewrote both occurrences. */
  lemma RepeatedCallMintsTwice(text: string, ns: string, pending: seq<Match>, used0: set<string>, answers0: seq<string>,
                               newEntries: Dict, content: string, used: set<string>, answers: seq<string>, i: nat, j: nat)
    requires Progress(text, ns, pending, used0, answers0, newEntries, content, used, answers)
    requires i < j < |pending| && pending[i] == pending[j]
    ensures newEntries[i].key != newEntries[j].key
    ensures newEntries[i].value == newEntries[j].value == pending[i].text
  {
    ProgressEntries(text, ns, pending, used0, answers0, newEntries, content, used, answers, i);
    ProgressEntries(text, ns, pending, used0, answers0, newEntries, content, used, answers, j);
  }

  lemma PrefixAll<T>(ms: seq<T>)
    ensures ms[..|ms|] == ms
  {
  }

  /** A call that gets the key `key` adds its entry and its rewrite. */
  lemma ProgressMint(text: string, ns: string, pending: seq<Match>, used0: set<string>, answers0: seq<string>,
                     newEntries: Dict, content: string, used: set<string>, answers: seq<string>,
                     m: Match, key: string, answersAfter: seq<string>)
    requires Progress(text, ns, pending, used0, answers0, newEntries, content, used, answers)
    requires key !in used
    requires FirstFree(GenerateKey(m.text), used, key) || (key in answers && key != "")
    requires IsSuffix(answersAfter, answers)
    ensures Put(newEntries, key, m.text) == newEntries + [Entry(key, m.text)]
    ensures Progress(text, ns, pending + [m], used0, answers0, newEntries + [Entry(key, m.text)],
                     ReplaceAll(content, m.full, NewCall(ns, key, m.args)), used + {key}, answersAfter)
  {
    MintKeys(newEntries, key, m.text, used0, answers0, used, answers, answersAfter);
    MintText(text, ns, pending, newEntries, content, m, key);
  }

  /** The key side of `ProgressMint`. */
  lemma MintKeys(newEntries: Dict, key: string, text: string, used0: set<string>, answers0: seq<string>,
                 used: set<string>, answers: seq<string>, answersAfter: seq<string>)
    requires DistinctKeys(newEntries) && Keys(newEntries) !! used0 && used == used0 + Keys(newEntries)
    requires ChosenInOrder(newEntries, used0, answers0) && IsSuffix(answers, answers0)
    requires key !in used
    requires FirstFree(GenerateKey(text), used, key) || (key in answers && key != "")
    requires IsSuffix(answersAfter, answers)
    ensures key !in Keys(newEntries)
    ensures DistinctKeys(newEntries + [Entry(key, text)])
    ensures Keys(newEntries + [Entry(key, text)]) !! used0
    ensures used + {key} == used0 + Keys(newEntries + [Entry(key, text)])
    ensures ChosenInOrder(newEntries + [Entry(key, text)], used0, answers0)
    ensures IsSuffix(answersAfter, answers0)
  {
    FreshAppend(newEntries, key, text, used0, used);
    MintStep(newEntries, key, text, used0, answers, answers0);
    SuffixTrans(answersAfter, answers, answers0);
  }

  /** A key not in use appended to the new entries keeps them distinct and
      fresh, and `used_keys` grows by exactly that key. */
  lemma FreshAppend(newEntries: Dict, key: string, text: string, used0: set<string>, used: set<string>)
    requires DistinctKeys(newEntries) && Keys(newEntries) !! used0 && used == used0 + Keys(newEntries)
    requires key !in used
    ensures key !in Keys(newEntries)
    ensures DistinctKeys(newEntries + [Entry(key, text)])
    ensures Keys(newEntries + [Entry(key, text)]) !! used0
    ensures used + {key} == used0 + Keys(newEntries + [Entry(key, text)])
  {
    forall j | 0 <= j < |newEntries| ensures newEntries[j].key != key {
      assert newEntries[j] in newEntries;
    }
    AppendFresh(newEntries, key, text);
  }

  /** The text side of `ProgressMint`. */
  lemma MintText(text: string, ns: string, pending: seq<Match>, newEntries: Dict, content: string,
                 m: Match, key: string)
    requires |newEntries| == |pending|
    requires forall j :: 0 <= j < |newEntries| ==> newEntries[j].value == pending[j].text
    requires content == Rewrite(text, ns, pending, KeyList(newEntries))
    ensures |newEntries + [Entry(key, m.text)]| == |pending + [m]|
    ensures forall j :: 0 <= j < |newEntries| + 1 ==>
      (newEntries + [Entry(key, m.text)])[j].value == (pending + [m])[j].text
    ensures ReplaceAll(content, m.full, NewCall(ns, key, m.args))
         == Rewrite(text, ns, pending + [m], KeyList(newEntries + [Entry(key, m.text)]))
  {
    ValuesStep(newEntries, pending, m, key);
    KeyListAppend(newEntries, Entry(key, m.text));
    RewriteStep(text, ns, pending, KeyList(newEntries), m, key);
  }

  lemma KeyListAppend(d: seq<Entry>, e: Entry)
    ensures KeyList(d + [e]) == KeyList(d) + [e.key]
  {
  }

  lemma RewriteStep(content: string, ns: string, ms: seq<Match>, keys: seq<string>, m: Match, key: string)
    requires |ms| == |keys|
    ensures Rewrite(content, ns, ms + [m], keys + [key])
         == ReplaceAll(Rewrite(content, ns, ms, keys), m.full, NewCall(ns, key, m.args))
  {
    var ms' := ms + [m];
    var keys' := keys + [key];
    assert ms'[..|ms|] == ms;
    assert keys'[..|keys|] == keys;
  }

  lemma ValuesStep(d: seq<Entry>, ps: seq<Match>, m: Match, key: string)
    requires |d| == |ps|
    requires forall j :: 0 <= j < |d| ==> d[j].value == ps[j].text
    ensures forall j :: 0 <= j < |d| + 1 ==> (d + [Entry(key, m.text)])[j].value == (ps + [m])[j].text
  {
  }

  lemma SuffixTrans(a: seq<string>, b: seq<string>, c: seq<string>)
    requires IsSuffix(a, b) && IsSuffix(b, c)
    ensures IsSuffix(a, c)
  {
    assert c[|c| - |b|..][|b| - |a|..] == c[|c| - |a|..];
  }

  /** Every entry's key was chosen, in order, against the keys in use
      before the run and the keys of the entries before it. */
  ghost predicate ChosenInOrder(d: seq<Entry>, used0: set<string>, answers0: seq<string>)
    decreases |d|
  {
    d == [] ||
    (ChosenInOrder(d[..|d| - 1], used0, answers0) && Chosen(d[|d| - 1], used0 + Keys(d[..|d| - 1]), answers0))
  }

  /** The same, entry by entry. */
  lemma {:induction false} ChosenInOrderAt(d: seq<Entry>, used0: set<string>, answers0: seq<string>, j: nat)
    requires ChosenInOrder(d, used0, answers0) && j < |d|
    ensures Chosen(d[j], used0 + Keys(d[..j]), answers0)
    decreases |d|
  {
    if j < |d| - 1 {
      ChosenInOrderAt(d[..|d| - 1], used0, answers0, j);
      assert d[..|d| - 1][..j] == d[..j];
    }
  }

  /** Appending a freshly minted entry records how its key was chosen. */
  lemma MintStep(before: Dict, key: string, text: string, used0: set<string>,
                 answersBefore: seq<string>, answers0: seq<string>)
    requires key !in used0 + Keys(before)
    requires IsSuffix(answersBefore, answers0)
    requires FirstFree(GenerateKey(text), used0 + Keys(before), key) || (key in answersBefore && key != "")
    requires ChosenInOrder(before, used0, answers0)
    ensures ChosenInOrder(before + [Entry(key, text)], used0, answers0)
  {
    var after := before + [Entry(key, text)];
    assert after[..|after| - 1] == before;
    if key in answersBefore && key != "" {
      var k :| 0 <= k < |answersBefore| && answersBefore[k] == key;
      assert answers0[|answers0| - |answersBefore| + k] == key;
    }
  }
}
