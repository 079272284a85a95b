/**
 * The part of the operating system the code generator writes to: a map from
 * file path to file contents, and the set of directories it asked to create.
 */
module Files {

  /**
   * File contents. A Go []byte and a Go string are both byte sequences, and
   * converting one into the other copies the bytes unchanged; both are modelled
   * as a Dafny `string` in which each character stands for one byte.
   */
  type Bytes = string

  /** One file write: the path and the full new content. */
  type Write = (string, Bytes)

  class FileSystem {
    var files: map<string, Bytes>
    var dirs: set<string>

    constructor (files0: map<string, Bytes>, dirs0: set<string>)
      ensures files == files0 && dirs == dirs0
    {
      files := files0;
      dirs := dirs0;
    }

    /**
     * os.MkdirAll with its error discarded: the directory is recorded as
     * created (its ancestors are implied) and no file changes.
     */
    method MkdirAll(dir: string)
      modifies this
      ensures files == old(files)
      ensures dirs == old(dirs) + {dir}
    {
      dirs := dirs + {dir};
    }

    /** ioutil.WriteFile: the file at `path` now holds `content`, whatever it held before. */
    method WriteFile(path: string, content: Bytes)
      modifies this
      ensures files == old(files)[path := content]
      ensures dirs == old(dirs)
    {
      files := files[path := content];
    }
  }

  /** The files after the writes are performed in order, each replacing what its path held. */
  function Apply(files: map<string, Bytes>, writes: seq<Write>): map<string, Bytes>
    decreases |writes|
  {
    if |writes| == 0 then files
    else
      var w := writes[|writes| - 1];
      Apply(files, writes[..|writes| - 1])[w.0 := w.1]
  }

  /** One more write replaces what its path held. */
  lemma ApplySnoc(files: map<string, Bytes>, writes: seq<Write>, w: Write)
    ensures Apply(files, writes + [w]) == Apply(files, writes)[w.0 := w.1]
  {
    assert (writes + [w])[..|writes|] == writes;
  }

  /** Performing two batches of writes one after the other is performing their concatenation. */
  lemma {:induction false} ApplyConcat(files: map<string, Bytes>, first: seq<Write>, second: seq<Write>)
    ensures Apply(files, first + second) == Apply(Apply(files, first), second)
    decreases |second|
  {
    if |second| > 0 {
      var n := |second| - 1;
      var all := first + second;
      assert all[..|all| - 1] == first + second[..n];
      assert all[|all| - 1] == second[n];
      ApplyConcat(files, first, second[..n]);
      assert Apply(files, all) == Apply(files, first + second[..n])[second[n].0 := second[n].1];
    } else {
      assert first + second == first;
    }
  }

  /** A path is present afterwards iff it was before or some write went to it. */
  lemma {:induction false} ApplyDomain(files: map<string, Bytes>, writes: seq<Write>, k: string)
    ensures k in Apply(files, writes) <==> k in files || exists i :: 0 <= i < |writes| && writes[i].0 == k
    decreases |writes|
  {
    if |writes| > 0 {
      var n := |writes| - 1;
      var pre := writes[..n];
      assert forall i :: 0 <= i < n ==> pre[i] == writes[i];
      ApplyDomain(files, pre, k);
    }
  }

  /** A path no write goes to keeps its content, or stays absent. */
  lemma {:induction false} ApplyUntouched(files: map<string, Bytes>, writes: seq<Write>, k: string)
    requires forall i :: 0 <= i < |writes| ==> writes[i].0 != k
    ensures k in Apply(files, writes) <==> k in files
    ensures k in files ==> Apply(files, writes)[k] == files[k]
    decreases |writes|
  {
    if |writes| > 0 {
      var n := |writes| - 1;
      var pre := writes[..n];
      assert forall i :: 0 <= i < n ==> pre[i] == writes[i];
      ApplyUntouched(files, pre, k);
    }
  }

  /** The last write to a path decides what it holds. */
  lemma {:induction false} ApplyLastWrite(files: map<string, Bytes>, writes: seq<Write>, j: nat)
    requires j < |writes|
    requires forall l :: j < l < |writes| ==> writes[l].0 != writes[j].0
    ensures writes[j].0 in Apply(files, writes)
    ensures Apply(files, writes)[writes[j].0] == writes[j].1
    decreases |writes|
  {
    var n := |writes| - 1;
    if j < n {
      var pre := writes[..n];
      assert forall i :: 0 <= i < n ==> pre[i] == writes[i];
      ApplyLastWrite(files, pre, j);
    }
  }

  /** When every write to a path carries the same content, the path ends up holding it. */
  lemma {:induction false} ApplyAgreeing(files: map<string, Bytes>, writes: seq<Write>, k: string, c: Bytes)
    requires exists i :: 0 <= i < |writes| && writes[i].0 == k
    requires forall i :: 0 <= i < |writes| && writes[i].0 == k ==> writes[i].1 == c
    ensures k in Apply(files, writes) && Apply(files, writes)[k] == c
    decreases |writes|
  {
    var n := |writes| - 1;
    if writes[n].0 != k {
      var pre := writes[..n];
      assert forall i :: 0 <= i < n ==> pre[i] == writes[i];
      var i :| 0 <= i < |writes| && writes[i].0 == k;
      assert pre[i].0 == k;
      ApplyAgreeing(files, pre, k, c);
    }
  }

  /**
   * Two logs holding the same writes, no two of which give one path different
   * contents, leave the same files whatever their order.
   */
  lemma ApplyOrderIndependent(files: map<string, Bytes>, writes1: seq<Write>, writes2: seq<Write>)
    requires forall w :: w in writes1 <==> w in writes2
    requires forall i, j :: 0 <= i < |writes1| && 0 <= j < |writes1| && writes1[i].0 == writes1[j].0 ==>
      writes1[i].1 == writes1[j].1
    ensures Apply(files, writes1) == Apply(files, writes2)
  {
    var a1, a2 := Apply(files, writes1), Apply(files, writes2);
    forall k
      ensures (k in a1 <==> k in a2) && (k in a1 ==> a1[k] == a2[k])
    {
      if i :| 0 <= i < |writes1| && writes1[i].0 == k {
        var c := writes1[i].1;
        ApplyAgreeing(files, writes1, k, c);
        assert writes1[i] in writes2;
        forall j | 0 <= j < |writes2| && writes2[j].0 == k
          ensures writes2[j].1 == c
        {
          assert writes2[j] in writes1;
        }
        ApplyAgreeing(files, writes2, k, c);
      } else {
        forall j | 0 <= j < |writes2|
          ensures writes2[j].0 != k
        {
          assert writes2[j] in writes1;
        }
        ApplyUntouched(files, writes1, k);
        ApplyUntouched(files, writes2, k);
      }
    }
    assert a1 == a2;
  }
}
