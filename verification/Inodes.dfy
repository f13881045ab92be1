/** Allocated bytes counted once per inode. */
module Inodes {

  /** Device and inode number. */
  type Inode = (nat, nat)

  /** Total allocated bytes, each inode once. */
  ghost function Sum(files: map<Inode, nat>): nat {
    if files.Keys == {} then 0
    else
      var inode :| inode in files;
      files[inode] + Sum(files - {inode})
  }

  lemma {:induction false} SumWithout(files: map<Inode, nat>, inode: Inode)
    requires inode in files
    ensures Sum(files) == files[inode] + Sum(files - {inode})
    decreases |files|
  {
    var pick :| pick in files && Sum(files) == files[pick] + Sum(files - {pick});
    if pick != inode {
      SumWithout(files - {pick}, inode);
      SumWithout(files - {inode}, pick);
      assert files - {pick} - {inode} == files - {inode} - {pick};
    }
  }

  method Bytes(files: map<Inode, nat>) returns (total: nat)
    ensures total == Sum(files)
  {
    total := 0;
    var pending := files;
    while pending.Keys != {}
      invariant total + Sum(pending) == Sum(files)
      decreases |pending|
    {
      var inode :| inode in pending;
      SumWithout(pending, inode);
      total := total + pending[inode];
      pending := pending - {inode};
    }
  }

  /** Fewer inodes, no more bytes. */
  lemma {:induction false} SumMonotone(some: map<Inode, nat>, files: map<Inode, nat>)
    requires forall inode | inode in some :: inode in files && files[inode] == some[inode]
    ensures Sum(some) <= Sum(files)
    decreases |files|
  {
    if inode :| inode in files {
      SumWithout(files, inode);
      if inode in some {
        SumWithout(some, inode);
        SumMonotone(some - {inode}, files - {inode});
      } else {
        SumMonotone(some, files - {inode});
      }
    } else {
      assert some.Keys == {};
    }
  }
}
