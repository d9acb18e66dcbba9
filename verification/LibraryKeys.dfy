/** The `_lib`, `_lib2`, `_lib3`, … references of a module's tags. */
module LibraryKeys {
  import opened Machine
  import opened Wrappers
  import opened Counting
  import opened Tags

  /** `_lib` */
  const LIB: Bytes := [0x5f, 0x6c, 0x69, 0x62]

  function Decimal(n: nat): (s: Bytes)
    ensures s != [] && forall k :: 0 <= k < |s| ==> Digit(s[k])
  {
    if n < 10 then [DigitByte(n)] else Decimal(n / 10) + [DigitByte(n % 10)]
  }

  function DigitByte(d: nat): (b: u8)
    requires d < 10
    ensures Digit(b)
  {
    0x30 + d
  }

  function Value(s: Bytes): int
  {
    if s == [] then 0 else 10 * Value(s[..|s| - 1]) + (s[|s| - 1] as int - 0x30)
  }

  lemma {:induction false} DecimalValue(n: nat)
    ensures Value(Decimal(n)) == n
  {
    if n >= 10 {
      DecimalValue(n / 10);
      assert Decimal(n)[..|Decimal(n)| - 1] == Decimal(n / 10);
    } else {
      assert Value([]) == 0 && Decimal(n)[..0] == [];
    }
  }

  function Key(index: nat): Bytes { LIB + Decimal(index) }

  function Text(s: string): (r: Bytes)
    requires forall k :: 0 <= k < |s| ==> s[k] as int < 0x80
    ensures |r| == |s| && forall k :: 0 <= k < |s| ==> r[k] == s[k] as int
  {
    seq(|s|, k requires 0 <= k < |s| => s[k] as int)
  }

  /** The tags are `_lib`, `_lib2` and so on, in decimal without leading zeros. */
  lemma KeysSpelled()
    ensures LIB == Text("_lib") && Key(2) == Text("_lib2") && Key(10) == Text("_lib10") && Key(203) == Text("_lib203")
  {
    assert Decimal(20) == Decimal(2) + [0x30] && Decimal(203) == Decimal(20) + [0x33];
    assert Decimal(10) == Decimal(1) + [0x30];
  }

  lemma KeysDistinct(i: nat, j: nat)
    requires i != j
    ensures Key(i) != Key(j)
  {
    DecimalValue(i);
    DecimalValue(j);
    assert Key(i)[4..] == Decimal(i) && Key(j)[4..] == Decimal(j);
  }

  lemma KeyIsLower(i: nat)
    ensures LowerAll(Key(i)) == Key(i)
  {
  }

  function Names(entries: seq<Tag>): set<Bytes>
  {
    set t | t in entries :: LowerAll(t.key)
  }

  lemma {:induction false} FewNames(entries: seq<Tag>)
    ensures |Names(entries)| <= |entries|
  {
    if entries != [] {
      var init, last := entries[..|entries| - 1], entries[|entries| - 1];
      FewNames(init);
      assert entries == init + [last];
      assert Names(entries) == Names(init) + {LowerAll(last.key)};
    }
  }

  lemma {:induction false} FoundName(entries: seq<Tag>, key: Bytes)
    requires Get(entries, key).Some?
    ensures LowerAll(key) in Names(entries)
  {
    if EqualKeys(entries[0].key, key) {
      assert entries[0] in entries;
    } else {
      FoundName(entries[1..], key);
      assert forall t :: t in entries[1..] ==> t in entries;
    }
  }

  function Keys(index: nat): (r: seq<Bytes>)
    requires index >= 2
    ensures |r| == index - 2
    ensures forall k :: 0 <= k < |r| ==> r[k] == Key(k + 2)
  {
    seq(index - 2, k requires 0 <= k < index - 2 => Key(k + 2))
  }

  /** Consecutive references name distinct tags, so there are no more of them than tags. */
  lemma ReferencesBounded(entries: seq<Tag>, index: nat)
    requires index >= 2 && forall j :: 2 <= j < index ==> Get(entries, Key(j)).Some?
    ensures index - 2 <= |entries|
  {
    hide Get, Key, LowerAll, Names;
    var keys := Keys(index);
    forall j, k | 0 <= j < k < |keys|
      ensures keys[j] != keys[k]
    {
      KeysDistinct(j + 2, k + 2);
    }
    forall k | 0 <= k < |keys|
      ensures keys[k] in Names(entries)
    {
      FoundName(entries, Key(k + 2));
      KeyIsLower(k + 2);
    }
    FewNames(entries);
    DistinctWithin(keys, Names(entries));
  }

  /** The values of `_lib2`, `_lib3`, … up to the first gap. */
  ghost predicate AreNumbered(entries: seq<Tag>, libraries: seq<Bytes>)
  {
    && (forall k :: 0 <= k < |libraries| ==> Get(entries, Key(k + 2)) == Some(libraries[k]))
    && Get(entries, Key(|libraries| + 2)).None?
  }

  method NumberedLibraries(entries: seq<Tag>) returns (libraries: seq<Bytes>)
    ensures AreNumbered(entries, libraries) && |libraries| <= |entries|
  {
    libraries := [];
    var index := 2;
    while true
      invariant index == |libraries| + 2
      invariant forall k :: 0 <= k < |libraries| ==> Get(entries, Key(k + 2)) == Some(libraries[k])
      invariant index - 2 <= |entries|
      decreases |entries| + 2 - index
    {
      var value := Get(entries, Key(index));
      if value.None? {
        return;
      }
      libraries := libraries + [value.value];
      index := index + 1;
      forall j | 2 <= j < index
        ensures Get(entries, Key(j)).Some?
      {
        assert Get(entries, Key((j - 2) + 2)) == Some(libraries[j - 2]);
      }
      ReferencesBounded(entries, index);
    }
  }

  /** `_lib` first, then the numbered references. */
  ghost predicate AreReferences(entries: seq<Tag>, hasPrimary: bool, references: seq<Bytes>)
  {
    && (hasPrimary <==> Get(entries, LIB).Some?)
    && (hasPrimary ==> references != [] && Get(entries, LIB) == Some(references[0]))
    && AreNumbered(entries, if hasPrimary then references[1..] else references)
  }
}
