/** Rolling log files (`fileappender.cxx`), over a file system that maps names to contents and whose
    operations succeed; no lock file. */
module RollingFiles {
  type Text = string

  const MINIMUM_ROLLING_LOG_SIZE := 200 * 1024

  /** The backups from number `n` down to 1, one after the other; a missing one counts as empty. */
  ghost function Backups(files: map<int, Text>, n: int): Text
    decreases n
  {
    if n <= 0 then [] else (if n in files then files[n] else []) + Backups(files, n - 1)
  }

  /** Backup `i` moves to `i + 1`; the last one goes. */
  ghost predicate Shifted(was: map<int, Text>, now: map<int, Text>, last: int) {
    && (forall i :: 1 <= i < last ==> (i + 1 in now <==> i in was) && (i in was ==> now[i + 1] == was[i]))
    && (forall i :: i < 1 || last < i ==> (i in now <==> i in was) && (i in was ==> now[i] == was[i]))
  }

  /** One rollover: the backups shift and the live file becomes backup 1. */
  ghost predicate Rolled(was: map<int, Text>, live: Text, now: map<int, Text>, last: int) {
    Shifted(was, now, last) && 1 in now && now[1] == live
  }

  lemma {:induction false} ShiftKeepsOrder(was: map<int, Text>, now: map<int, Text>, last: int, n: int)
    requires Shifted(was, now, last) && 1 <= n <= last && 1 in now
    ensures Backups(now, n) == Backups(was, n - 1) + now[1]
    decreases n
  {
    if n == 1 {
      assert Backups(now, 0) == [] && now[1] + [] == now[1];
    } else {
      ShiftKeepsOrder(was, now, last, n - 1);
    }
  }

  class RollingFileAppender {
    /** File 0 is the live one, file `i` the backup with suffix `i`. */
    var backups: map<int, Text>
    var live: Text
    const maxFileSize: int
    const maxBackupIndex: int
    /** Everything that was there or was written, and the contents of deleted files. */
    ghost var history: Text
    ghost var lost: Text

    /** What the files hold from the oldest backup to the live file is what was written last. */
    ghost predicate Valid()
      reads this
    {
      && MINIMUM_ROLLING_LOG_SIZE <= maxFileSize && 1 <= maxBackupIndex
      && lost + Backups(backups, maxBackupIndex) + live == history
    }

    /** The constructor with `init`, over the files found on disk. */
    constructor (maxFileSize: int, maxBackupIndex: int, backups: map<int, Text>, live: Text)
      ensures Valid() && this.backups == backups && this.live == live && lost == []
      ensures this.maxFileSize == if maxFileSize < 204800 then 204800 else maxFileSize
      ensures this.maxBackupIndex == if maxBackupIndex < 1 then 1 else maxBackupIndex
    {
      this.maxFileSize := if maxFileSize < MINIMUM_ROLLING_LOG_SIZE then MINIMUM_ROLLING_LOG_SIZE else maxFileSize;
      this.maxBackupIndex := if maxBackupIndex < 1 then 1 else maxBackupIndex;
      this.backups := backups;
      this.live := live;
      lost := [];
      history := Backups(backups, if maxBackupIndex < 1 then 1 else maxBackupIndex) + live;
    }

    /** `rename` of one backup: nothing happens if there is no such file. */
    method Rename(source: int, target: int)
      requires source != target
      modifies this`backups
      ensures backups == if source in old(backups)
        then old(backups)[target := old(backups)[source]] - {source} else old(backups)
    {
      if source in backups {
        backups := backups[target := backups[source]] - {source};
      }
    }

    /** `rolloverFiles`: every file is moved to the next number, gaps included, and the last is removed. */
    method RolloverFiles()
      requires 1 <= maxBackupIndex
      modifies this`backups
      ensures Shifted(old(backups), backups, maxBackupIndex) && 1 !in backups
    {
      ghost var was := backups;
      backups := backups - {maxBackupIndex};
      var i := maxBackupIndex - 1;
      while i >= 1
        invariant 0 <= i < maxBackupIndex && i + 1 !in backups
        invariant forall k {:trigger k in backups} :: k <= i || maxBackupIndex < k ==>
          (k in backups <==> k in was) && (k in was ==> backups[k] == was[k])
        invariant forall k {:trigger k in was} :: i < k < maxBackupIndex ==>
          (k + 1 in backups <==> k in was) && (k in was ==> backups[k + 1] == was[k])
      {
        Rename(i, i + 1);
        i := i - 1;
      }
    }

    /** `rollover`: afterwards the live file is empty and its contents are backup 1. What is lost is
        exactly what the last backup held. */
    method Rollover()
      requires Valid()
      modifies this
      ensures Valid() && live == [] && history == old(history)
      ensures Rolled(old(backups), old(live), backups, maxBackupIndex)
      ensures lost == old(lost) + if maxBackupIndex in old(backups) then old(backups)[maxBackupIndex] else []
    {
      ghost var was := backups;
      RolloverFiles();
      ghost var shifted := backups;
      backups := backups[1 := live];
      assert Shifted(was, backups, maxBackupIndex) by {
        assert forall i :: 1 <= i < maxBackupIndex ==> (i + 1 in shifted <==> i in was);
      }
      ShiftKeepsOrder(was, backups, maxBackupIndex, maxBackupIndex);
      lost := lost + if maxBackupIndex in was then was[maxBackupIndex] else [];
      live := [];
      assert old(lost) + Backups(was, maxBackupIndex) + old(live) ==
             lost + (Backups(was, maxBackupIndex - 1) + old(live)) + [];
    }

    /** `append`: roll over before writing to a file that is too big, and after making it too big; `between` are
        the backups when the text is written. */
    method Append(text: Text) returns (ghost between: map<int, Text>)
      requires Valid()
      modifies this
      ensures Valid() && history == old(history) + text && |live| <= maxFileSize
      ensures old(lost) <= lost
      ensures |old(live)| + |text| <= maxFileSize ==>
        live == old(live) + text && backups == old(backups) && lost == old(lost)
      ensures |old(live)| <= maxFileSize < |old(live)| + |text| ==>
        live == [] && Rolled(old(backups), old(live) + text, backups, maxBackupIndex)
      ensures |text| <= maxFileSize < |old(live)| ==>
        live == text && Rolled(old(backups), old(live), backups, maxBackupIndex)
      ensures |old(live)| > maxFileSize && |text| > maxFileSize ==>
        && live == [] && Rolled(old(backups), old(live), between, maxBackupIndex)
        && Rolled(between, text, backups, maxBackupIndex)
    {
      hide Rolled, Backups, Valid;
      RollIfTooBig();
      between := backups;
      ghost var kept := live;
      Write(text);
      assert [] + text == text;
      RollIfTooBig();
    }

    /** `FileAppender::append` */
    method Write(text: Text)
      requires Valid()
      modifies this`live, this`history
      ensures Valid() && live == old(live) + text && history == old(history) + text
    {
      live := live + text;
      history := history + text;
      Longer(lost, Backups(backups, maxBackupIndex), old(live), text);
    }

    /** The size test before and after writing. */
    method RollIfTooBig()
      requires Valid()
      modifies this
      ensures Valid() && history == old(history) && |live| <= maxFileSize && old(lost) <= lost
      ensures |old(live)| <= maxFileSize ==> live == old(live) && backups == old(backups) && lost == old(lost)
      ensures |old(live)| > maxFileSize ==> live == [] && Rolled(old(backups), old(live), backups, maxBackupIndex)
    {
      assert 0 <= maxFileSize;
      hide Rolled, Backups, Valid;
      if |live| > maxFileSize {
        Rollover();
      }
    }

    /** What the files hold, from the oldest backup to the live file. */
    ghost function Kept(): Text
      reads this
    {
      Backups(backups, maxBackupIndex) + live
    }

    /** Any run of appends: the files hold an end of what they held before and everything written since, in
        order; what is missing of it are the contents of removed backups. */
    method AppendAll(texts: seq<Text>)
      requires Valid()
      modifies this
      ensures Valid() && history == old(history) + Flatten(texts)
      ensures var all, kept := old(Kept()) + Flatten(texts), Kept();
        && |kept| <= |all| && all[|all| - |kept|..] == kept
        && lost == old(lost) + all[..|all| - |kept|]
      ensures texts != [] ==> |live| <= maxFileSize
    {
      hide Backups;
      for i := 0 to |texts|
        invariant Valid() && history + Flatten(texts[i..]) == old(history) + Flatten(texts)
        invariant old(lost) <= lost && (0 < i ==> |live| <= maxFileSize)
      {
        assert texts[i..][1..] == texts[i + 1..];
        assert history + (texts[i] + Flatten(texts[i + 1..])) == history + texts[i] + Flatten(texts[i + 1..]);
        ghost var between := Append(texts[i]);
      }
      assert history + [] == history;
      Regroup(old(lost), old(Backups(backups, maxBackupIndex)), old(live), Flatten(texts));
      Regroup(lost, Backups(backups, maxBackupIndex), live, []);
      assert Kept() + [] == Kept() && lost + Kept() == history;
      KeptIsEnd(old(lost), old(Kept()) + Flatten(texts), lost, Kept());
    }
  }

  lemma Longer(x: Text, y: Text, z: Text, more: Text)
    ensures x + y + (z + more) == x + y + z + more
  {
  }

  lemma Regroup(x: Text, y: Text, z: Text, more: Text)
    ensures x + y + z + more == x + (y + z + more)
  {
  }

  lemma KeptIsEnd(before: Text, all: Text, lost: Text, kept: Text)
    requires before <= lost && before + all == lost + kept
    ensures |kept| <= |all| && all[|all| - |kept|..] == kept && lost == before + all[..|all| - |kept|]
  {
    var whole := before + all;
    assert all == whole[|before|..] && kept == whole[|lost|..];
    assert lost == whole[..|lost|] && before == whole[..|before|];
  }

  ghost function Flatten(texts: seq<Text>): Text {
    if texts == [] then [] else texts[0] + Flatten(texts[1..])
  }
}
