/** The two palette objects of colors.js and the JavaScript semantics of an
    object literal: a repeated key keeps the position of its first
    occurrence and the value of its last, and Object.keys lists the keys in
    that insertion order (none of the keys is an array index, which
    JavaScript would list first). */
module Palettes {

  import opened Rgb

  /** An object literal as written: its key/label pairs in source order. */
  type Literal = seq<(string, string)>

  /** Object.keys of an object literal, folding the entries left to right:
      a key already present keeps its place. */
  function KeysFrom(entries: Literal, acc: seq<string>): seq<string>
    decreases |entries|
  {
    if entries == [] then acc
    else
      var k := entries[0].0;
      KeysFrom(entries[1..], if k in acc then acc else acc + [k])
  }

  function ObjectKeys(entries: Literal): seq<string> {
    KeysFrom(entries, [])
  }

  /** The keys of the entries as written, repetitions included. */
  function EntryKeys(entries: Literal): seq<string>
  {
    seq(|entries|, i requires 0 <= i < |entries| => entries[i].0)
  }

  predicate NoDuplicates(s: seq<string>) {
    forall i, j :: 0 <= i < j < |s| ==> s[i] != s[j]
  }

  /** Object.keys lists every key of the literal exactly once, after the
      keys already collected; KeysFromFirstOccurrences fixes their order. */
  lemma {:induction false} KeysFromSpec(entries: Literal, acc: seq<string>)
    requires NoDuplicates(acc)
    ensures var keys := KeysFrom(entries, acc);
      && NoDuplicates(keys)
      && |acc| <= |keys| && keys[..|acc|] == acc
      && forall k :: k in keys <==> k in acc || k in EntryKeys(entries)
    decreases |entries|
  {
    if entries != [] {
      var k, rest := entries[0].0, entries[1..];
      var acc' := if k in acc then acc else acc + [k];
      if k !in acc {
        NoDuplicatesSnoc(acc, k);
      }
      KeysFromSpec(rest, acc');
      EntryKeysCons(entries);
      KeysFromSpecStep(KeysFrom(rest, acc'), acc, k, EntryKeys(rest));
    }
  }

  /** Appending a key not yet present keeps a list free of repetitions. */
  lemma NoDuplicatesSnoc(s: seq<string>, k: string)
    requires NoDuplicates(s) && k !in s
    ensures NoDuplicates(s + [k])
  {
  }

  /** The step of KeysFromSpec on plain lists: what holds of the keys after
      acc with k collected holds of them after acc. */
  lemma KeysFromSpecStep(keys: seq<string>, acc: seq<string>, k: string, rest: seq<string>)
    requires var acc' := if k in acc then acc else acc + [k];
      |acc'| <= |keys| && keys[..|acc'|] == acc'
      && forall x :: x in keys <==> x in acc' || x in rest
    ensures |acc| <= |keys| && keys[..|acc|] == acc
    ensures forall x :: x in keys <==> x in acc || x in [k] + rest
  {
    var acc' := if k in acc then acc else acc + [k];
    assert keys[..|acc|] == acc'[..|acc|];
    assert acc'[..|acc|] == acc;
  }

  /** The elements of s that do not occur earlier in s, in order: s[i] is
      kept exactly when s[i] !in s[..i]. */
  function FirstOccurrences(s: seq<string>): seq<string>
    decreases |s|
  {
    if s == [] then []
    else
      var init, last := s[..|s| - 1], s[|s| - 1];
      FirstOccurrences(init) + (if last in init then [] else [last])
  }

  /** A list without repetitions is its own first occurrences. */
  lemma {:induction false} FirstOccurrencesDistinct(s: seq<string>)
    requires NoDuplicates(s)
    ensures FirstOccurrences(s) == s
    decreases |s|
  {
    if s != [] {
      var init, last := s[..|s| - 1], s[|s| - 1];
      assert last !in init by {
        forall i | 0 <= i < |init| ensures init[i] != last {
          assert init[i] == s[i];
        }
      }
      FirstOccurrencesDistinct(init);
      assert init + [last] == s;
    }
  }

  lemma EntryKeysSnoc(a: Literal, e: (string, string))
    ensures EntryKeys(a + [e]) == EntryKeys(a) + [e.0]
  {
  }

  /** Object.keys, after the keys already collected, is the first occurrence
      of each key in the collected keys followed by the keys as written. */
  lemma {:induction false} KeysFromFirstOccurrences(entries: Literal, acc: seq<string>)
    requires NoDuplicates(acc)
    ensures KeysFrom(entries, acc) == FirstOccurrences(acc + EntryKeys(entries))
    decreases |entries|
  {
    if entries == [] {
      assert acc + EntryKeys(entries) == acc;
      FirstOccurrencesDistinct(acc);
    } else {
      var a, e := entries[..|entries| - 1], entries[|entries| - 1];
      assert entries == a + [e];
      KeysFromFirstOccurrences(a, acc);
      KeysFromAppend(a, [e], acc);
      var keys := KeysFrom(a, acc);
      KeysFromSpec(a, acc);
      assert KeysFrom([e], keys) == if e.0 in keys then keys else keys + [e.0];
      EntryKeysSnoc(a, e);
      var s := acc + EntryKeys(a);
      assert acc + EntryKeys(entries) == s + [e.0];
      assert (s + [e.0])[..|s|] == s;
      assert e.0 in keys <==> e.0 in s;
    }
  }

  /** Object.keys of a literal keeps each key at its first occurrence and
      drops the later repetitions. */
  lemma ObjectKeysFirstOccurrences(entries: Literal)
    ensures ObjectKeys(entries) == FirstOccurrences(EntryKeys(entries))
  {
    KeysFromFirstOccurrences(entries, []);
    assert [] + EntryKeys(entries) == EntryKeys(entries);
  }

  /** Folding over a concatenation folds over each part in turn. */
  lemma {:induction false} KeysFromAppend(a: Literal, b: Literal, acc: seq<string>)
    ensures KeysFrom(a + b, acc) == KeysFrom(b, KeysFrom(a, acc))
    decreases |a|
  {
    if a != [] {
      var acc' := if a[0].0 in acc then acc else acc + [a[0].0];
      assert (a + b)[0] == a[0] && (a + b)[1..] == a[1..] + b;
      assert KeysFrom(a + b, acc) == KeysFrom(a[1..] + b, acc');
      assert KeysFrom(a, acc) == KeysFrom(a[1..], acc');
      KeysFromAppend(a[1..], b, acc');
    } else {
      assert a + b == b;
    }
  }

  /** Entries with distinct fresh keys are listed exactly as written. */
  lemma {:induction false} KeysFromDistinct(entries: Literal, acc: seq<string>)
    requires NoDuplicates(acc + EntryKeys(entries))
    ensures KeysFrom(entries, acc) == acc + EntryKeys(entries)
    decreases |entries|
  {
    if entries != [] {
      var k, rest := entries[0].0, entries[1..];
      var all := acc + EntryKeys(entries);
      EntryKeysCons(entries);
      assert all == (acc + [k]) + EntryKeys(rest);
      assert k !in acc by {
        assert all[|acc|] == k;
        forall i | 0 <= i < |acc| ensures acc[i] != k {
          assert all[i] == acc[i];
        }
      }
      KeysFromDistinct(rest, acc + [k]);
    }
  }

  /** A literal whose keys are all distinct lists them as written. */
  lemma ObjectKeysDistinct(entries: Literal)
    requires NoDuplicates(EntryKeys(entries))
    ensures ObjectKeys(entries) == EntryKeys(entries)
  {
    assert [] + EntryKeys(entries) == EntryKeys(entries);
    KeysFromDistinct(entries, []);
  }

  /** Repeating an earlier key at the end leaves Object.keys unchanged. */
  lemma ObjectKeysRepeatedLast(first: Literal, dup: (string, string))
    requires NoDuplicates(EntryKeys(first)) && dup.0 in EntryKeys(first)
    ensures ObjectKeys(first + [dup]) == EntryKeys(first)
  {
    ObjectKeysDistinct(first);
    KeysFromAppend(first, [dup], []);
    assert KeysFrom([dup], EntryKeys(first)) == KeysFrom([], EntryKeys(first));
  }

  lemma EntryKeysCons(entries: Literal)
    requires entries != []
    ensures EntryKeys(entries) == [entries[0].0] + EntryKeys(entries[1..])
  {
  }

  /** The label an object literal ends up with for each key (last one wins). */
  function Labels(entries: Literal): map<string, string>
  {
    if entries == [] then map[]
    else
      var last := entries[|entries| - 1];
      Labels(entries[..|entries| - 1])[last.0 := last.1]
  }

  /** The colors literal, colors.js lines 3-32, with "#D35400" twice. */
  function ColorEntries(): (entries: Literal)
    ensures |entries| == 30
  {
    [
      ("#ffffff", "1"), ("#c9c5be", "2"), ("#a0a4b1", "3"), ("#929798", "4"),
      ("#616667", "5"), ("#3d3f43", "6"), ("#3f3d3b", "7"), ("#000000", "8"),
      ("#FF5733", "9"), ("#33FF57", "10"), ("#3357FF", "11"), ("#F1C40F", "12"),
      ("#8E44AD", "13"), ("#3498DB", "14"), ("#E74C3C", "15"), ("#1ABC9C", "16"),
      ("#2ECC71", "17"), ("#E67E22", "18"), ("#9B59B6", "19"), ("#34495E", "20"),
      ("#16A085", "21"), ("#27AE60", "22"), ("#2980B9", "23"), ("#D35400", "24"),
      ("#C0392B", "25"), ("#BDC3C7", "26"), ("#7F8C8D", "27"), ("#ECF0F1", "28"),
      ("#F39C12", "29"), ("#D35400", "30")
    ]
  }

  /** The grayscales literal, colors.js lines 37-44. */
  function GrayscaleEntries(): (entries: Literal)
    ensures |entries| == 8
  {
    [
      ("#ffffff", "1"), ("#c9c5be", "2"), ("#a0a4b1", "3"), ("#929798", "4"),
      ("#616667", "5"), ("#3d3f43", "6"), ("#3f3d3b", "7"), ("#000000", "8")
    ]
  }

  /** Object.keys(colors), in the order the matcher visits them. */
  function ColorKeys(): seq<string> { ObjectKeys(ColorEntries()) }

  /** Object.keys(grayscales). */
  function GrayscaleKeys(): seq<string> { ObjectKeys(GrayscaleEntries()) }

  const ExpectedColorKeys: seq<string> := [
    "#ffffff", "#c9c5be", "#a0a4b1", "#929798", "#616667", "#3d3f43", "#3f3d3b", "#000000",
    "#FF5733", "#33FF57", "#3357FF", "#F1C40F", "#8E44AD", "#3498DB", "#E74C3C", "#1ABC9C",
    "#2ECC71", "#E67E22", "#9B59B6", "#34495E", "#16A085", "#27AE60", "#2980B9", "#D35400",
    "#C0392B", "#BDC3C7", "#7F8C8D", "#ECF0F1", "#F39C12"
  ]

  /** The first 29 entries of colors have distinct keys; the 30th repeats one. */
  lemma ColorEntriesShape()
    ensures ColorEntries() == ColorEntries()[..29] + [ColorEntries()[29]]
    ensures EntryKeys(ColorEntries()[..29]) == ExpectedColorKeys
    ensures NoDuplicates(ExpectedColorKeys)
    ensures ColorEntries()[29].0 == ExpectedColorKeys[23]
  {
    ColorEntriesSplit();
    FirstColorKeys();
    ExpectedKeysDistinct();
  }

  lemma ColorEntriesSplit()
    ensures ColorEntries() == ColorEntries()[..29] + [ColorEntries()[29]]
  {
  }

  lemma FirstColorKeys()
    ensures EntryKeys(ColorEntries()[..29]) == ExpectedColorKeys
  {
    var ks := EntryKeys(ColorEntries()[..29]);
    assert |ks| == 29;
    forall i | 0 <= i < 29
      ensures ks[i] == ExpectedColorKeys[i]
    {
      assert ks[i] == ColorEntries()[i].0;
    }
  }

  lemma ExpectedKeysDistinct()
    ensures NoDuplicates(ExpectedColorKeys)
  {
    forall i | 0 <= i < 29 ensures forall j :: i < j < 29 ==> ExpectedColorKeys[i] != ExpectedColorKeys[j] {
      DistinctRow(i);
    }
  }

  lemma DistinctRow(i: nat)
    requires i < 29
    ensures forall j :: i < j < 29 ==> ExpectedColorKeys[i] != ExpectedColorKeys[j]
  {
  }

  /** The duplicate "#D35400" keeps its first position: colors has 29 keys,
      the 24th being "#D35400". */
  lemma ColorKeysDeduplicated()
    ensures ColorKeys() == ExpectedColorKeys
    ensures |ColorKeys()| == 29 && ColorKeys()[23] == "#D35400"
  {
    ColorEntriesShape();
    ObjectKeysOfRepeat(ColorEntries(), ExpectedColorKeys, 23);
  }

  /** A literal made of distinct keys followed by a repeat of key i lists
      those distinct keys. */
  lemma ObjectKeysOfRepeat(entries: Literal, keys: seq<string>, i: nat)
    requires |entries| > 0 && i < |keys|
    requires entries == entries[..|entries| - 1] + [entries[|entries| - 1]]
    requires EntryKeys(entries[..|entries| - 1]) == keys && NoDuplicates(keys)
    requires entries[|entries| - 1].0 == keys[i]
    ensures ObjectKeys(entries) == keys
  {
    var first, dup := entries[..|entries| - 1], entries[|entries| - 1];
    ObjectKeysRepeatedLast(first, dup);
  }

  /** The duplicate's label is the later one, "30". */
  lemma DuplicateLabel()
    ensures "#D35400" in Labels(ColorEntries()) && Labels(ColorEntries())["#D35400"] == "30"
  {
  }

  /** The grayscale keys are the first eight colour keys, in the same order. */
  lemma GrayscalesArePrefix()
    ensures |ColorKeys()| >= 8 && GrayscaleKeys() == ColorKeys()[..8]
  {
    ColorKeysDeduplicated();
    GrayscaleEntriesKeys();
    ExpectedKeysDistinct();
    ObjectKeysDistinct(GrayscaleEntries());
  }

  lemma GrayscaleEntriesKeys()
    ensures EntryKeys(GrayscaleEntries()) == ExpectedColorKeys[..8]
    ensures NoDuplicates(EntryKeys(GrayscaleEntries()))
  {
    assert ExpectedColorKeys[..8] == ["#ffffff", "#c9c5be", "#a0a4b1", "#929798", "#616667", "#3d3f43", "#3f3d3b", "#000000"];
    ExpectedKeysDistinct();
  }

  /** Every key of both palettes is '#' and six hex digits, so hexToRgb
      yields a colour for each, and both palettes are non-empty. */
  lemma PaletteKeysWellFormed()
    ensures |ColorKeys()| > 0 && |GrayscaleKeys()| > 0
    ensures forall k :: k in ColorKeys() ==> WellFormedHex(k)
    ensures forall k :: k in GrayscaleKeys() ==> WellFormedHex(k)
  {
    ColorKeysDeduplicated();
    GrayscalesArePrefix();
    forall i | 0 <= i < 29 ensures WellFormedHex(ExpectedColorKeys[i]) {
      ExpectedKeyWellFormed(i);
    }
  }

  lemma ExpectedKeyWellFormed(i: nat)
    requires i < 29
    ensures WellFormedHex(ExpectedColorKeys[i])
  {
  }
}
