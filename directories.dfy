/**
 * Creating the directories above the output file (`ensure_directory`):
 * every prefix of the name that ends just before a `/` past the first byte
 * is passed to `make_directory`, left to right. `make_directory` touches
 * the file system; here each call is recorded as its argument.
 */
module Directories {
  import opened Wrappers
  import opened CStrings

  /** The prefixes passed for the slashes at index `i` and later. */
  function PrefixesFrom(name: CStr, i: nat): seq<CStr>
    decreases |name| - i
  {
    if i >= |name| then []
    else if name[i] == '/' then [name[..i]] + PrefixesFrom(name, i + 1)
    else PrefixesFrom(name, i + 1)
  }

  /** The arguments of the `make_directory` calls for `name`, in order. */
  function DirectoryPrefixes(name: CStr): seq<CStr> {
    PrefixesFrom(name, 1)
  }

  /**
   * Each prefix from index `i` on ends just before a slash at `i` or later,
   * and they come in increasing length.
   */
  lemma {:induction false} PrefixesFromShape(name: CStr, i: nat)
    ensures forall k :: 0 <= k < |PrefixesFrom(name, i)| ==>
      var p := PrefixesFrom(name, i)[k];
      i <= |p| < |name| && name[|p|] == '/' && p == name[..|p|]
    ensures forall a, b :: 0 <= a < b < |PrefixesFrom(name, i)| ==>
      |PrefixesFrom(name, i)[a]| < |PrefixesFrom(name, i)[b]|
    decreases |name| - i
  {
    if i < |name| {
      PrefixesFromShape(name, i + 1);
      var rest := PrefixesFrom(name, i + 1);
      if name[i] == '/' {
        var ps := [name[..i]] + rest;
        assert PrefixesFrom(name, i) == ps;
        forall k | 0 < k < |ps|
          ensures ps[k] == rest[k - 1]
        {
        }
      }
    }
  }

  /** Every slash at index `i` or later yields the prefix before it. */
  lemma {:induction false} PrefixesFromComplete(name: CStr, i: nat, j: nat)
    requires i <= j < |name| && name[j] == '/'
    ensures name[..j] in PrefixesFrom(name, i)
    decreases j - i
  {
    if i < j {
      PrefixesFromComplete(name, i + 1, j);
    }
  }

  /**
   * The calls are exactly the prefixes before the slashes past the first
   * byte, shortest first; the last component (and so the name itself) is
   * never passed.
   */
  lemma DirectoryPrefixesSpec(name: CStr)
    ensures forall k :: 0 <= k < |DirectoryPrefixes(name)| ==>
      var p := DirectoryPrefixes(name)[k];
      1 <= |p| < |name| && name[|p|] == '/' && p == name[..|p|]
    ensures forall a, b :: 0 <= a < b < |DirectoryPrefixes(name)| ==>
      |DirectoryPrefixes(name)[a]| < |DirectoryPrefixes(name)[b]|
    ensures forall j :: 1 <= j < |name| && name[j] == '/' ==> name[..j] in DirectoryPrefixes(name)
    ensures name !in DirectoryPrefixes(name)
  {
    PrefixesFromShape(name, 1);
    forall j | 1 <= j < |name| && name[j] == '/'
      ensures name[..j] in DirectoryPrefixes(name)
    {
      PrefixesFromComplete(name, 1, j);
    }
  }

  /**
   * One step of `ensure_directory` at the `/` at index `s`: the slash is
   * replaced by a NUL, the buffer (now ending at `s`) is the argument of
   * `make_directory`, and the slash is put back.
   */
  method MakeDirectoryAt(dir: array<char>, s: nat, ghost name: CStr) returns (made: CStr)
    requires dir.Length == |name| + 1 && s < |name| && name[s] == '/'
    requires forall j :: 0 <= j < |name| ==> dir[j] == name[j]
    requires dir[|name|] == NUL
    modifies dir
    ensures made == name[..s]
    ensures dir[..] == old(dir[..])
  {
    dir[s] := NUL;
    assert dir[..] == name[..s] + [NUL] + dir[s + 1..];
    CStringStopsAtNul(name[..s], dir[s + 1..]);
    made := CString(dir[..]);
    dir[s] := '/';
  }

  /**
   * `ensure_directory`: copies the name into a buffer and walks it from the
   * second byte; at each `/` it stores a NUL, calls `make_directory` on the
   * buffer and puts the `/` back. Returns the calls made, in order.
   */
  method EnsureDirectory(fileName: CStr) returns (calls: seq<CStr>)
    ensures calls == DirectoryPrefixes(fileName)
  {
    calls := [];
    if |fileName| == 0 {
      // The C code starts its walk one past the terminator here; an empty
      // name has no directory to create.
      return;
    }
    var dir := new char[|fileName| + 1](i => if 0 <= i < |fileName| then fileName[i] else NUL);
    var s := 1;
    while dir[s] != NUL
      invariant 1 <= s <= |fileName|
      invariant forall j :: 0 <= j < |fileName| ==> dir[j] == fileName[j]
      invariant dir[|fileName|] == NUL
      invariant calls + PrefixesFrom(fileName, s) == DirectoryPrefixes(fileName)
      decreases |fileName| - s
    {
      while dir[s] != NUL && dir[s] != '/'
        invariant 1 <= s <= |fileName|
        invariant forall j :: 0 <= j < |fileName| ==> dir[j] == fileName[j]
        invariant dir[|fileName|] == NUL
        invariant calls + PrefixesFrom(fileName, s) == DirectoryPrefixes(fileName)
        decreases |fileName| - s
      {
        s := s + 1;
      }
      if dir[s] == NUL {
        break;
      }
      if dir[s] == '/' {
        var made := MakeDirectoryAt(dir, s, fileName);
        calls := calls + [made];
        assert PrefixesFrom(fileName, s) == [fileName[..s]] + PrefixesFrom(fileName, s + 1);
      }
      s := s + 1;
    }
    assert PrefixesFrom(fileName, s) == [];
  }

  /**
   * The walk of `ensure_directory` as written, from index `s` of the copy,
   * which holds `name` and its terminator (indices `0..|name|`): it stops
   * at the terminator, records the prefix before each `/` and steps on.
   * `None` marks a read of index `|name| + 1`, past the copy.
   */
  function WalkAsWritten(name: CStr, s: nat): Option<seq<CStr>>
    decreases |name| + 1 - s
  {
    if s > |name| then None
    else if s == |name| then Some([])
    else
      var rest := WalkAsWritten(name, s + 1);
      if rest.None? then None
      else if name[s] == '/' then Some([name[..s]] + rest.value)
      else rest
  }

  /** The walk as written starts at the second byte of the copy. */
  function EnsureDirectoryAsWritten(name: CStr): Option<seq<CStr>> {
    WalkAsWritten(name, 1)
  }

  /** From any index inside the name, the walk as written stays in the copy and makes the modelled calls. */
  lemma {:induction false} WalkAsWrittenAgrees(name: CStr, s: nat)
    requires s <= |name|
    ensures WalkAsWritten(name, s) == Some(PrefixesFrom(name, s))
    decreases |name| - s
  {
    if s < |name| {
      WalkAsWrittenAgrees(name, s + 1);
    }
  }

  /** The empty name makes the C walk read past its buffer; the model makes no call. */
  lemma EmptyNameOverruns()
    ensures EnsureDirectoryAsWritten("").None?
    ensures DirectoryPrefixes("") == []
  {
  }

  /** On every other name the walk as written makes the modelled calls. */
  lemma AsWrittenAgreesOnNonEmpty(name: CStr)
    requires |name| >= 1
    ensures EnsureDirectoryAsWritten(name) == Some(DirectoryPrefixes(name))
  {
    WalkAsWrittenAgrees(name, 1);
  }

  /** For `out/2024/x` the directories `out` and `out/2024` are made, in that order. */
  lemma DirectoryExample()
    ensures DirectoryPrefixes("out/2024/x") == ["out", "out/2024"]
  {
    var name: CStr := "out/2024/x";
    assert name[..3] == "out" && name[..8] == "out/2024";
  }
}
