/**
 * Where chunked uploads keep their parts and what assembling them means:
 * part `i` of upload `uuid` lives at `chunksFolder/uuid/i`, and the
 * assembled file is the parts' contents concatenated in index order.
 */
module Assembly {
  import opened Wrappers
  import opened Text
  import opened Paths
  import opened Files

  /** `chunksFolder/uuid`: the folder holding one upload's parts. */
  function ChunkFolder(chunksFolder: string, uuid: string): string {
    Join(chunksFolder, uuid)
  }

  /** `folder/i`: where part `i` is stored. */
  function PartPath(folder: string, i: int): string {
    Join(folder, IntString(i))
  }

  /** Distinct part indexes are stored at distinct paths. */
  lemma PartPathInjective(folder: string, i: int, j: int)
    requires PartPath(folder, i) == PartPath(folder, j)
    ensures i == j
  {
    var p, q := PartPath(folder, i), PartPath(folder, j);
    assert p[|folder| + 1..] == IntString(i) && q[|folder| + 1..] == IntString(j);
    IntStringInjective(i, j);
  }

  /** Every part path `0..n-1`. */
  function PartSet(folder: string, n: int): set<string> {
    set i | 0 <= i < n :: PartPath(folder, i)
  }

  predicate PartsPresent(files: map<string, seq<byte>>, folder: string, n: int) {
    forall i :: 0 <= i < n ==> PartPath(folder, i) in files
  }

  /** The contents of parts `0..n-1`, concatenated in index order. */
  function Assembled(files: map<string, seq<byte>>, folder: string, n: nat): seq<byte>
    requires PartsPresent(files, folder, n)
  {
    if n == 0 then [] else Assembled(files, folder, n - 1) + files[PartPath(folder, n - 1)]
  }

  /** The lowest part index in `i..n-1` that has no file, if any. */
  function FirstMissing(files: map<string, seq<byte>>, folder: string, i: nat, n: int): (r: Option<nat>)
    ensures r.Some? ==> i <= r.value < n && PartPath(folder, r.value) !in files
    ensures r.Some? ==> forall j :: i <= j < r.value ==> PartPath(folder, j) in files
    ensures r.None? ==> forall j :: i <= j < n ==> PartPath(folder, j) in files
    decreases n - i
  {
    if i >= n then None
    else if PartPath(folder, i) !in files then Some(i)
    else FirstMissing(files, folder, i + 1, n)
  }

  /**
   * Part `i` sits in the assembled file right after parts `0..i-1`, byte for
   * byte: the assembled file is the ordered concatenation of all parts.
   */
  lemma {:induction false} AssembledPartAt(files: map<string, seq<byte>>, folder: string, n: nat, i: nat)
    requires PartsPresent(files, folder, n) && i < n
    ensures var start := |Assembled(files, folder, i)|;
      var part := files[PartPath(folder, i)];
      start + |part| <= |Assembled(files, folder, n)| &&
      Assembled(files, folder, n)[start..start + |part|] == part
  {
    var start := |Assembled(files, folder, i)|;
    var part := files[PartPath(folder, i)];
    if i == n - 1 {
      assert Assembled(files, folder, n)[start..start + |part|] == part;
    } else {
      AssembledPartAt(files, folder, n - 1, i);
      var prefix := Assembled(files, folder, n - 1);
      assert Assembled(files, folder, n)[..|prefix|] == prefix;
      assert Assembled(files, folder, n)[start..start + |part|] == prefix[start..start + |part|];
    }
  }

  /** Assembling reads nothing but the part files. */
  lemma {:induction false} AssembledReadsOnlyParts(f1: map<string, seq<byte>>, f2: map<string, seq<byte>>, folder: string, n: nat)
    requires PartsPresent(f1, folder, n)
    requires forall i :: 0 <= i < n ==> PartPath(folder, i) in f2 && f2[PartPath(folder, i)] == f1[PartPath(folder, i)]
    ensures Assembled(f1, folder, n) == Assembled(f2, folder, n)
  {
    if n > 0 {
      AssembledReadsOnlyParts(f1, f2, folder, n - 1);
    }
  }

  /** Storing part `i` and part `j != i` gives the same files in either order. */
  lemma StoringPartsCommutes(files: map<string, seq<byte>>, folder: string, i: int, j: int, a: seq<byte>, b: seq<byte>)
    requires i != j
    ensures files[PartPath(folder, i) := a][PartPath(folder, j) := b] == files[PartPath(folder, j) := b][PartPath(folder, i) := a]
  {
    if PartPath(folder, i) == PartPath(folder, j) {
      PartPathInjective(folder, i, j);
    }
  }

  /** Storing part `i` twice keeps only the second content. */
  lemma StoringPartTwiceKeepsLast(files: map<string, seq<byte>>, folder: string, i: int, a: seq<byte>, b: seq<byte>)
    ensures files[PartPath(folder, i) := a][PartPath(folder, i) := b] == files[PartPath(folder, i) := b]
  {
  }

  /**
   * Parts "AAA", "BBB", "CCC" sent as parts 2, 0, 1 (in that order) are
   * assembled to "AAABBBCCC".
   */
  lemma ThreePartsInAnySubmissionOrder(files: map<string, seq<byte>>, folder: string)
    ensures var stored := files[PartPath(folder, 2) := [0x43, 0x43, 0x43]]
                               [PartPath(folder, 0) := [0x41, 0x41, 0x41]]
                               [PartPath(folder, 1) := [0x42, 0x42, 0x42]];
      PartsPresent(stored, folder, 3) &&
      Assembled(stored, folder, 3) == [0x41, 0x41, 0x41, 0x42, 0x42, 0x42, 0x43, 0x43, 0x43]
  {
    var stored := files[PartPath(folder, 2) := [0x43, 0x43, 0x43]]
                       [PartPath(folder, 0) := [0x41, 0x41, 0x41]]
                       [PartPath(folder, 1) := [0x42, 0x42, 0x42]];
    if PartPath(folder, 0) == PartPath(folder, 2) { PartPathInjective(folder, 0, 2); }
    if PartPath(folder, 1) == PartPath(folder, 2) { PartPathInjective(folder, 1, 2); }
    if PartPath(folder, 0) == PartPath(folder, 1) { PartPathInjective(folder, 0, 1); }
    assert stored[PartPath(folder, 0)] == [0x41, 0x41, 0x41];
    assert stored[PartPath(folder, 1)] == [0x42, 0x42, 0x42];
    assert stored[PartPath(folder, 2)] == [0x43, 0x43, 0x43];
    assert Assembled(stored, folder, 1) == [0x41, 0x41, 0x41];
    assert Assembled(stored, folder, 2) == [0x41, 0x41, 0x41, 0x42, 0x42, 0x42];
  }

  /**
   * When the parts `0..n-1` are the only entries of the upload's folder and
   * the target is not inside it, deleting the parts leaves the folder empty,
   * so `rmdir` removes it.
   */
  lemma FolderEmptyAfterPartsDeleted(files: map<string, seq<byte>>, dirs: set<string>, folder: string, n: int,
                                     target: string, content: seq<byte>)
    requires forall p :: p in files && ChildOf(folder, p) ==> p in PartSet(folder, n)
    requires forall p :: p in dirs ==> !ChildOf(folder, p)
    requires !ChildOf(folder, target)
    ensures !HasEntry((files - PartSet(folder, n))[target := content], dirs, folder)
  {
  }
}
