/** The in-place passes that crc.c makes over its table once it is filled. */
module TableOps {
  import opened ErrorTable

  // ---------------------------------------------------------------- sorting

  function Insert(e: ErrorInfo, s: seq<ErrorInfo>): seq<ErrorInfo> {
    if s == [] then [e]
    else if Key(e) <= Key(s[0]) then [e] + s
    else [s[0]] + Insert(e, s[1..])
  }

  function SortedCopy(s: seq<ErrorInfo>): seq<ErrorInfo> {
    if s == [] then [] else Insert(s[0], SortedCopy(s[1..]))
  }

  lemma SortedCons(e: ErrorInfo, s: seq<ErrorInfo>)
    requires Sorted(s) && forall x :: x in multiset(s) ==> Key(e) <= Key(x)
    ensures Sorted([e] + s)
  {
    hide Key;
    assert forall k :: 0 <= k < |s| ==> s[k] in multiset(s);
  }

  lemma SortedUncons(s: seq<ErrorInfo>)
    requires Sorted(s) && s != []
    ensures Sorted(s[1..]) && forall x :: x in multiset(s) ==> Key(s[0]) <= Key(x)
    ensures multiset(s) == multiset(s[1..]) + multiset{s[0]}
  {
    hide Key;
    assert s == [s[0]] + s[1..];
  }

  lemma {:induction false} InsertSorts(e: ErrorInfo, s: seq<ErrorInfo>)
    requires Sorted(s)
    ensures Sorted(Insert(e, s)) && multiset(Insert(e, s)) == multiset(s) + multiset{e}
  {
    hide Key, Sorted;
    if s == [] {
      SortedCons(e, s);
      assert [e] + s == [e];
    } else {
      SortedUncons(s);
      if Key(e) <= Key(s[0]) {
        SortedCons(e, s);
      } else {
        InsertSorts(e, s[1..]);
        SortedCons(s[0], Insert(e, s[1..]));
      }
    }
  }

  lemma {:induction false} SortedCopySorts(s: seq<ErrorInfo>)
    ensures Sorted(SortedCopy(s)) && multiset(SortedCopy(s)) == multiset(s)
  {
    hide Insert;
    if s != [] {
      SortedCopySorts(s[1..]);
      InsertSorts(s[0], SortedCopy(s[1..]));
      assert s == [s[0]] + s[1..];
    }
  }

  lemma SameSize<T>(s: seq<T>, t: seq<T>)
    requires multiset(s) == multiset(t)
    ensures |s| == |t|
  {
    assert |multiset(s)| == |s| && |multiset(t)| == |t|;
  }

  /** Stands for the library's qsort with syndrome_compare; only its contract is used. */
  method Qsort(table: array<ErrorInfo>, n: nat)
    requires n <= table.Length
    modifies table
    ensures Sorted(table[..n]) && multiset(table[..n]) == multiset(old(table[..n]))
  {
    hide *;
    var s := SortedCopy(table[..n]);
    SortedCopySorts(table[..n]);
    SameSize(s, table[..n]);
    for i := 0 to n
      invariant table[..i] == s[..i]
    {
      table[i] := s[i];
    }
    assert table[..n] == s;
  }

  // ------------------------------------------------- dropping equal syndromes

  // No other entry has the syndrome of entry i.
  ghost predicate Solitary(s: seq<ErrorInfo>, i: nat)
    requires i < |s|
  {
    forall k :: 0 <= k < |s| && k != i ==> Key(s[k]) != Key(s[i])
  }

  // The solitary entries among the first i.
  ghost function KeepSolitary(s: seq<ErrorInfo>, i: nat): seq<ErrorInfo>
    requires i <= |s|
  {
    if i == 0 then []
    else KeepSolitary(s, i - 1) + if Solitary(s, i - 1) then [s[i - 1]] else []
  }

  lemma KeepSolitaryNone(s: seq<ErrorInfo>)
    ensures KeepSolitary(s, 0) == []
  {
  }

  lemma KeepSolitaryNext(s: seq<ErrorInfo>, i: nat)
    requires i < |s| && Solitary(s, i)
    ensures KeepSolitary(s, i + 1) == KeepSolitary(s, i) + [s[i]]
  {
  }

  lemma {:induction false} KeepSolitarySize(s: seq<ErrorInfo>, i: nat)
    requires i <= |s|
    ensures |KeepSolitary(s, i)| <= i
  {
    if i > 0 {
      KeepSolitarySize(s, i - 1);
    }
  }

  lemma {:induction false} KeepSolitaryMembers(s: seq<ErrorInfo>, i: nat, e: ErrorInfo)
    requires i <= |s|
    ensures e in KeepSolitary(s, i) <==> exists k :: 0 <= k < i && s[k] == e && Solitary(s, k)
  {
    hide Solitary;
    if i > 0 {
      KeepSolitaryMembers(s, i - 1, e);
    }
  }

  lemma {:induction false} KeepSolitarySorted(s: seq<ErrorInfo>, i: nat)
    requires i <= |s| && Sorted(s)
    ensures StrictlySorted(KeepSolitary(s, i))
  {
    hide Key;
    if i > 0 {
      var kept := KeepSolitary(s, i - 1);
      KeepSolitarySorted(s, i - 1);
      forall k | 0 <= k < |kept| && Solitary(s, i - 1)
        ensures Key(kept[k]) < Key(s[i - 1])
      {
        assert kept[k] in kept;
        KeepSolitaryMembers(s, i - 1, kept[k]);
      }
    }
  }

  // On a sorted table only the two neighbours can have the same syndrome.
  lemma SolitaryByNeighbours(s: seq<ErrorInfo>, i: nat)
    requires i < |s| && Sorted(s)
    ensures Solitary(s, i) <==>
      (i == 0 || Key(s[i - 1]) != Key(s[i])) && (i == |s| - 1 || Key(s[i + 1]) != Key(s[i]))
  {
    hide Key;
  }

  // A run of equal syndromes that ends at i contributes nothing.
  lemma {:induction false} RunDropped(s: seq<ErrorInfo>, from: nat, i: nat)
    requires from < i < |s|
    requires forall k :: from <= k <= i ==> Key(s[k]) == Key(s[i])
    ensures KeepSolitary(s, i + 1) == KeepSolitary(s, from)
    decreases i - from
  {
    hide Key;
    assert !Solitary(s, i) by { assert Key(s[i - 1]) == Key(s[i]); }
    assert !Solitary(s, i - 1);
    if from + 1 < i {
      RunDropped(s, from, i - 1);
    }
  }

  method RemoveDuplicates(table: array<ErrorInfo>, usedsize: nat) returns (j: nat)
    requires usedsize <= table.Length && Sorted(table[..usedsize])
    modifies table
    ensures j <= usedsize && table[..j] == KeepSolitary(old(table[..usedsize]), usedsize)
  {
    hide *;
    ghost var s := table[..usedsize];
    KeepSolitaryNone(s);
    var i := 0;
    j := 0;
    while i < usedsize
      invariant j <= i <= usedsize && |s| == usedsize
      invariant table[..j] == KeepSolitary(s, i)
      invariant forall k :: i <= k < usedsize ==> table[k] == s[k]
      invariant 0 < i < usedsize ==> Key(s[i - 1]) != Key(s[i])
    {
      SolitaryByNeighbours(s, i);
      if i < usedsize - 1 && Key(table[i + 1]) == Key(table[i]) {
        ghost var from := i;
        while i < usedsize - 1 && Key(table[i + 1]) == Key(table[i])
          invariant from <= i < usedsize
          invariant i == from ==> Key(table[i + 1]) == Key(table[i])
          invariant forall k :: from <= k <= i ==> Key(s[k]) == Key(s[i])
        {
          i := i + 1;
        }
        RunDropped(s, from, i);
      } else {
        KeepSolitaryNext(s, i);
        ghost var kept := table[..j];
        if i != j {
          table[j] := table[i];
        }
        assert table[..j] == kept && table[..j + 1] == kept + [s[i]];
        j := j + 1;
      }
      i := i + 1;
    }
  }
}
