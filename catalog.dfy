/** The translation catalog: Python dicts from key to text, the merge that
    lets the catalog on disk win, the escaping of values, and the PHP file
    that `update_translation_file` writes. */
module Catalog {
  import opened Strings

  datatype Entry = Entry(key: string, value: string)

  /** A Python dict from key to text, in insertion order. A dict never holds
      a key twice (`DistinctKeys`); a bare `seq<Entry>` is a list of pairs,
      which may. */
  type Dict = seq<Entry>

  predicate DistinctKeys(d: seq<Entry>) {
    forall i, j :: 0 <= i < j < |d| ==> d[i].key != d[j].key
  }

  function Keys(d: seq<Entry>): set<string> {
    set e | e in d :: e.key
  }

  /** The mapping a list of pairs denotes when a later pair overrides an
      earlier one with the same key. */
  function ToMap(d: seq<Entry>): map<string, string> {
    if d == [] then map[] else ToMap(d[..|d| - 1])[d[|d| - 1].key := d[|d| - 1].value]
  }

  lemma {:induction false} ToMapKeys(d: seq<Entry>)
    ensures ToMap(d).Keys == Keys(d)
  {
    if d != [] {
      var init := d[..|d| - 1];
      ToMapKeys(init);
      assert d == init + [d[|d| - 1]];
      assert Keys(d) == Keys(init) + {d[|d| - 1].key};
    }
  }

  /** In a dict every entry is what the mapping returns for its key. */
  lemma {:induction false} ToMapAt(d: seq<Entry>, i: nat)
    requires DistinctKeys(d) && i < |d|
    ensures d[i].key in ToMap(d) && ToMap(d)[d[i].key] == d[i].value
  {
    var init := d[..|d| - 1];
    if i < |d| - 1 {
      ToMapAt(init, i);
    }
  }

  /** Position of key `k` in `d`, or `|d|` when it is absent. */
  function IndexOf(d: seq<Entry>, k: string): (i: nat)
    ensures i <= |d|
    ensures i < |d| ==> d[i].key == k
    ensures forall j :: 0 <= j < i ==> d[j].key != k
  {
    if d == [] || d[0].key == k then 0 else 1 + IndexOf(d[1..], k)
  }

  /** Replacing the value of an entry in place changes the mapping at that
      key only. */
  lemma {:induction false} ToMapReplaceAt(d: seq<Entry>, i: nat, v: string)
    requires DistinctKeys(d) && i < |d|
    ensures ToMap(d[i := Entry(d[i].key, v)]) == ToMap(d)[d[i].key := v]
  {
    var k := d[i].key;
    var r := d[i := Entry(k, v)];
    var init := d[..|d| - 1];
    var last := d[|d| - 1];
    if i == |d| - 1 {
      assert r[..|r| - 1] == init;
    } else {
      assert r[..|r| - 1] == init[i := Entry(k, v)];
      ToMapReplaceAt(init, i, v);
      assert last.key != k;
    }
  }

  /** Replacing the value of an entry keeps the keys, their order and their
      distinctness. */
  lemma ReplaceAtKeys(d: seq<Entry>, i: nat, v: string)
    requires DistinctKeys(d) && i < |d|
    ensures DistinctKeys(d[i := Entry(d[i].key, v)])
    ensures Keys(d[i := Entry(d[i].key, v)]) == Keys(d)
  {
    ToMapReplaceAt(d, i, v);
    ToMapKeys(d);
    ToMapKeys(d[i := Entry(d[i].key, v)]);
  }

  /** Appending an entry under a fresh key. */
  lemma AppendFresh(d: seq<Entry>, k: string, v: string)
    requires DistinctKeys(d)
    requires forall j :: 0 <= j < |d| ==> d[j].key != k
    ensures ToMap(d + [Entry(k, v)]) == ToMap(d)[k := v]
    ensures DistinctKeys(d + [Entry(k, v)])
    ensures Keys(d + [Entry(k, v)]) == Keys(d) + {k}
    ensures k !in Keys(d)
  {
    var r := d + [Entry(k, v)];
    assert r[..|r| - 1] == d;
    assert r[|d|] == Entry(k, v);
    assert forall e :: e in r <==> e in d || e == Entry(k, v);
  }

  lemma KeysConcat(a: seq<Entry>, b: seq<Entry>)
    ensures Keys(a + b) == Keys(a) + Keys(b)
  {
    forall k | k in Keys(a + b) ensures k in Keys(a) + Keys(b) {
      var e :| e in a + b && e.key == k;
    }
    forall k | k in Keys(a) + Keys(b) ensures k in Keys(a + b) {
      if k in Keys(a) {
        var e :| e in a && e.key == k;
        assert e in a + b;
      } else {
        var e :| e in b && e.key == k;
        assert e in a + b;
      }
    }
  }

  /** Two dicts whose keys do not clash concatenate into a dict. */
  lemma DistinctConcat(a: seq<Entry>, b: seq<Entry>)
    requires DistinctKeys(a) && DistinctKeys(b) && Keys(a) !! Keys(b)
    ensures DistinctKeys(a + b)
  {
    forall i, j | 0 <= i < j < |a + b| ensures (a + b)[i].key != (a + b)[j].key {
      if i < |a| <= j {
        assert a[i] in a && a[i].key in Keys(a);
        assert b[j - |a|] in b && b[j - |a|].key in Keys(b);
      }
    }
  }

  /** `d[k] = v` on a Python dict: an existing key keeps its place and takes
      the new value; a new key is appended. */
  function Put(d: Dict, k: string, v: string): (r: Dict)
    requires DistinctKeys(d)
    ensures DistinctKeys(r)
    ensures ToMap(r) == ToMap(d)[k := v]
    ensures Keys(r) == Keys(d) + {k}
    ensures |r| >= |d| && forall i :: 0 <= i < |d| ==> r[i].key == d[i].key
    ensures k !in Keys(d) ==> r == d + [Entry(k, v)]
  {
    var i := IndexOf(d, k);
    if i < |d| then
      ToMapReplaceAt(d, i, v);
      ReplaceAtKeys(d, i, v);
      d[i := Entry(k, v)]
    else
      AppendFresh(d, k, v);
      d + [Entry(k, v)]
  }

  /** `d.update(pairs)`, which is also `{**d, **pairs}`: the pairs are put in
      one after the other. */
  function Update(d: Dict, pairs: seq<Entry>): (r: Dict)
    requires DistinctKeys(d)
    ensures DistinctKeys(r)
    decreases |pairs|
  {
    if pairs == [] then d
    else
      var last := pairs[|pairs| - 1];
      Put(Update(d, pairs[..|pairs| - 1]), last.key, last.value)
  }

  /** Updating a dict with pairs gives the mapping of the dict overridden by
      that of the pairs. */
  lemma {:induction false} UpdateMap(d: Dict, pairs: seq<Entry>)
    requires DistinctKeys(d)
    ensures ToMap(Update(d, pairs)) == ToMap(d) + ToMap(pairs)
    decreases |pairs|
  {
    if pairs != [] {
      var init := pairs[..|pairs| - 1];
      var last := pairs[|pairs| - 1];
      UpdateMap(d, init);
      assert ToMap(pairs) == ToMap(init)[last.key := last.value];
      OverrideThenPut(ToMap(d), ToMap(init), last.key, last.value);
    }
  }

  lemma OverrideThenPut(a: map<string, string>, b: map<string, string>, k: string, v: string)
    ensures (a + b)[k := v] == a + b[k := v]
  {
  }

  /** An update keeps the keys already in the dict in their places. */
  lemma {:induction false} UpdateKeepsOrder(d: Dict, pairs: seq<Entry>)
    requires DistinctKeys(d)
    ensures |Update(d, pairs)| >= |d|
    ensures forall i :: 0 <= i < |d| ==> Update(d, pairs)[i].key == d[i].key
    decreases |pairs|
  {
    if pairs != [] {
      UpdateKeepsOrder(d, pairs[..|pairs| - 1]);
    }
  }

  /** Updating with entries under fresh, distinct keys only appends them:
      nothing already in the dict is overwritten. */
  lemma {:induction false} UpdateFresh(d: Dict, pairs: seq<Entry>)
    requires DistinctKeys(d) && DistinctKeys(pairs)
    requires Keys(d) !! Keys(pairs)
    ensures Update(d, pairs) == d + pairs
    decreases |pairs|
  {
    if pairs != [] {
      var init := pairs[..|pairs| - 1];
      var last := pairs[|pairs| - 1];
      assert Keys(init) <= Keys(pairs);
      UpdateFresh(d, init);
      var di := d + init;
      assert last in pairs;
      forall j | 0 <= j < |di| ensures di[j].key != last.key {
        if j < |d| {
          assert di[j] in d;
          assert di[j].key in Keys(d);
          assert last.key in Keys(pairs);
        } else {
          assert di[j] == pairs[j - |d|];
        }
      }
      AppendFresh(di, last.key, last.value);
      assert di + [last] == d + pairs;
    }
  }

  /** `dict(pairs)`: the dict of a list of pairs, as `load_existing_translations`
      builds it from the pairs found in the catalog file. */
  function FromPairs(pairs: seq<Entry>): (r: Dict)
    ensures DistinctKeys(r)
  {
    Update([], pairs)
  }

  /** In `dict(pairs)` every key of the list is present, and the value of the
      last pair with that key wins. */
  lemma DictLastPairWins(pairs: seq<Entry>, i: nat)
    requires i < |pairs|
    requires forall j :: i < j < |pairs| ==> pairs[j].key != pairs[i].key
    ensures Keys(FromPairs(pairs)) == Keys(pairs)
    ensures pairs[i].key in ToMap(FromPairs(pairs))
    ensures ToMap(FromPairs(pairs))[pairs[i].key] == pairs[i].value
  {
    FromPairsMap(pairs);
    LastPairValue(pairs, i);
  }

  /** `dict(pairs)` denotes the same mapping as the pairs, with the same keys. */
  lemma FromPairsMap(pairs: seq<Entry>)
    ensures ToMap(FromPairs(pairs)) == ToMap(pairs)
    ensures Keys(FromPairs(pairs)) == Keys(pairs)
  {
    UpdateMap([], pairs);
    assert ToMap([]) + ToMap(pairs) == ToMap(pairs);
    ToMapKeys(pairs);
    ToMapKeys(FromPairs(pairs));
  }

  lemma {:induction false} LastPairValue(pairs: seq<Entry>, i: nat)
    requires i < |pairs|
    requires forall j :: i < j < |pairs| ==> pairs[j].key != pairs[i].key
    ensures pairs[i].key in ToMap(pairs) && ToMap(pairs)[pairs[i].key] == pairs[i].value
  {
    if i < |pairs| - 1 {
      LastPairValue(pairs[..|pairs| - 1], i);
    }
  }

  /** `{**new_entries, **existing_translations}`. */
  function Merge(newEntries: Dict, existing: Dict): Dict
    requires DistinctKeys(newEntries)
  {
    Update(newEntries, existing)
  }

  /** The merge keeps every key of either side; a key already in the catalog
      keeps its catalog value, so a new text appears only under a key the
      catalog did not have; and the new entries keep their order at the front. */
  lemma MergePrecedence(newEntries: Dict, existing: Dict)
    requires DistinctKeys(newEntries) && DistinctKeys(existing)
    ensures Keys(Merge(newEntries, existing)) == Keys(newEntries) + Keys(existing)
    ensures forall i :: 0 <= i < |existing| ==>
      existing[i].key in ToMap(Merge(newEntries, existing)) &&
      ToMap(Merge(newEntries, existing))[existing[i].key] == existing[i].value
    ensures forall i :: 0 <= i < |newEntries| && newEntries[i].key !in Keys(existing) ==>
      newEntries[i].key in ToMap(Merge(newEntries, existing)) &&
      ToMap(Merge(newEntries, existing))[newEntries[i].key] == newEntries[i].value
    ensures |Merge(newEntries, existing)| >= |newEntries|
    ensures forall i :: 0 <= i < |newEntries| ==> Merge(newEntries, existing)[i].key == newEntries[i].key
  {
    var m := Merge(newEntries, existing);
    UpdateMap(newEntries, existing);
    UpdateKeepsOrder(newEntries, existing);
    ToMapKeys(m);
    ToMapKeys(newEntries);
    ToMapKeys(existing);
    forall i | 0 <= i < |existing|
      ensures existing[i].key in ToMap(m) && ToMap(m)[existing[i].key] == existing[i].value
    {
      ToMapAt(existing, i);
    }
    forall i | 0 <= i < |newEntries| && newEntries[i].key !in Keys(existing)
      ensures newEntries[i].key in ToMap(m) && ToMap(m)[newEntries[i].key] == newEntries[i].value
    {
      ToMapAt(newEntries, i);
    }
  }

  /** How one character comes out of `value.replace('\\', '\\\\').replace('"', '\\"')`. */
  function EscapeChar(c: char): string {
    if c == '\\' then "\\\\" else if c == '"' then "\\\"" else [c]
  }

  /** `value.replace('\\', '\\\\').replace('"', '\\"')`: backslashes are
      doubled first, then each double quote gets a backslash. */
  function Escape(v: string): string {
    ReplaceAll(ReplaceAll(v, "\\", "\\\\"), "\"", "\\\"")
  }

  /** The two replacements amount to escaping character by character. */
  lemma EscapeCons(c: char, rest: string)
    ensures Escape([c] + rest) == EscapeChar(c) + Escape(rest)
  {
    var doubled := ReplaceAll(rest, "\\", "\\\\");
    ReplaceCharCons(c, rest, '\\', "\\\\");
    var head := if c == '\\' then "\\\\" else [c];
    ReplaceCharConcat(head, doubled, '"', "\\\"");
    if c == '\\' {
      ReplaceCharCons('\\', "\\", '"', "\\\"");
      ReplaceCharCons('\\', [], '"', "\\\"");
    } else {
      ReplaceCharCons(c, [], '"', "\\\"");
    }
  }

  /** Escaping adds exactly one character per backslash and per double quote. */
  lemma {:induction false} EscapeLength(v: string)
    ensures |Escape(v)| == |v| + Count(v, '\\') + Count(v, '"')
    decreases |v|
  {
    if v != [] {
      assert v == [v[0]] + v[1..];
      EscapeCons(v[0], v[1..]);
      EscapeLength(v[1..]);
    }
  }

  /** Reads an escaped value back: a backslash stands for the character after it. */
  function Unescape(s: string): string
    decreases |s|
  {
    if s == [] then []
    else if s[0] == '\\' && |s| >= 2 then [s[1]] + Unescape(s[2..])
    else [s[0]] + Unescape(s[1..])
  }

  /** Escaping loses nothing: the value can be read back from its escaped form,
      so distinct values are written distinctly. */
  lemma {:induction false} UnescapeEscape(v: string)
    ensures Unescape(Escape(v)) == v
    decreases |v|
  {
    if v != [] {
      assert v == [v[0]] + v[1..];
      EscapeCons(v[0], v[1..]);
      UnescapeEscape(v[1..]);
      var e := EscapeChar(v[0]) + Escape(v[1..]);
      if v[0] == '\\' || v[0] == '"' {
        assert e[2..] == Escape(v[1..]);
      } else {
        assert e[1..] == Escape(v[1..]);
      }
    }
  }

  const Header: string := "<?php\n\nreturn [\n"
  const Footer: string := "];\n"

  /** `    "key" => "escaped",` and a newline, for an already escaped value. */
  function FormatLine(key: string, escaped: string): string {
    "    \"" + key + "\" => \"" + escaped + "\",\n"
  }

  /** The line of one catalog entry. */
  function Line(e: Entry): string {
    FormatLine(e.key, Escape(e.value))
  }

  /** The rendering `f` of each entry, concatenated in order. */
  function ConcatMap(d: seq<Entry>, f: Entry -> string): string {
    if d == [] then "" else ConcatMap(d[..|d| - 1], f) + f(d[|d| - 1])
  }

  lemma {:induction false} ConcatMapAppend(a: seq<Entry>, b: seq<Entry>, f: Entry -> string)
    ensures ConcatMap(a + b, f) == ConcatMap(a, f) + ConcatMap(b, f)
    decreases |b|
  {
    if b == [] {
      assert a + b == a;
    } else {
      var ab := a + b;
      assert ab[..|ab| - 1] == a + b[..|b| - 1];
      ConcatMapAppend(a, b[..|b| - 1], f);
    }
  }

  lemma ConcatMapAt(d: seq<Entry>, i: nat, f: Entry -> string)
    requires i < |d|
    ensures ConcatMap(d, f) == ConcatMap(d[..i], f) + f(d[i]) + ConcatMap(d[i + 1..], f)
  {
    var pre := d[..i + 1];
    assert d == pre + d[i + 1..];
    ConcatMapAppend(pre, d[i + 1..], f);
    assert pre[..|pre| - 1] == d[..i];
  }

  /** The lines of all entries, in dict order. */
  function Lines(d: seq<Entry>): string {
    ConcatMap(d, Line)
  }

  /** The whole catalog file for a dict. */
  function Render(d: Dict): string {
    Header + Lines(d) + Footer
  }

  /** The file is the header, then the line of each entry in dict order, then
      the footer. */
  lemma RenderEntry(d: Dict, i: nat)
    requires i < |d|
    ensures Render(d) == Header + Lines(d[..i]) + Line(d[i]) + Lines(d[i + 1..]) + Footer
  {
    ConcatMapAt(d, i, Line);
  }

  /** The writing half of `update_translation_file`: the header, one line
      per entry with its value escaped, and the footer. */
  method WriteCatalog(merged: Dict) returns (file: string)
    ensures file == Render(merged)
  {
    file := Header;
    var i := 0;
    while i < |merged|
      invariant 0 <= i <= |merged|
      invariant file == Header + Lines(merged[..i])
    {
      var e := merged[i];
      var escaped := Escape(e.value);
      var line := FormatLine(e.key, escaped);
      assert merged[..i + 1][..i] == merged[..i];
      file := file + line;
      i := i + 1;
    }
    assert merged[..|merged|] == merged;
    file := file + Footer;
  }

  /** `update_translation_file`: load the catalog again, merge the new entries
      under it, and write it out. The pairs found in the file are a parameter;
      the file text is the result. */
  method UpdateTranslationFile(newEntries: Dict, onDisk: seq<Entry>) returns (file: string)
    requires DistinctKeys(newEntries)
    ensures file == Render(Merge(newEntries, FromPairs(onDisk)))
  {
    var existing := FromPairs(onDisk);
    var merged := Merge(newEntries, existing);
    file := WriteCatalog(merged);
  }
}
