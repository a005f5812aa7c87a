/** The backup manager's pure parts: the name a backup is written under and
    the query strings the importer issues. */
module Backup {
  import opened Text

  /** `f"{lookup_name.split('.')[0]}_backup_{timestamp}.csv"` */
  function BackupName(lookup: string, timestamp: string): string
  {
    Split(lookup, '.')[0] + "_backup_" + timestamp + ".csv"
  }

  /** The backup name is the lookup name up to its first `.` (all of it when
      it has none), then `_backup_`, the timestamp and `.csv`. */
  lemma BackupNameOf(lookup: string, base: string, timestamp: string)
    requires |base| <= |lookup| && base == lookup[..|base|] && '.' !in base
    requires |base| == |lookup| || lookup[|base|] == '.'
    ensures BackupName(lookup, timestamp) == base + "_backup_" + timestamp + ".csv"
  {
    if |base| == |lookup| {
      assert base == lookup;
      SplitNoSeparator(lookup, '.');
    } else {
      SplitHeadUnique(lookup, '.', base);
    }
  }

  /** A name without `.` is used whole. */
  lemma BackupNameWhole(lookup: string, timestamp: string)
    requires '.' !in lookup
    ensures BackupName(lookup, timestamp) == lookup + "_backup_" + timestamp + ".csv"
  {
    SplitNoSeparator(lookup, '.');
  }

  /** A `%Y%m%d%H%M%S` clock reading: fourteen decimal digits. */
  predicate IsTimestamp(ts: string)
  {
    |ts| == 14 && forall k :: 0 <= k < |ts| ==> '0' <= ts[k] <= '9'
  }

  /** A backup name ends with the fourteen digits of its clock reading and
      `.csv`, right after `_backup_`. */
  lemma BackupNameEnding(lookup: string, timestamp: string)
    requires IsTimestamp(timestamp)
    ensures var b := BackupName(lookup, timestamp);
      |b| >= 26 && b[|b| - 4..] == ".csv" && b[|b| - 18..|b| - 4] == timestamp
      && b[|b| - 26..|b| - 18] == "_backup_"
  {
    var base := Split(lookup, '.')[0];
    var b := BackupName(lookup, timestamp);
    assert b == base + ("_backup_" + (timestamp + ".csv"));
    var n := |base|;
    assert b[n..] == "_backup_" + (timestamp + ".csv");
    assert b[|b| - 26..] == b[n..];
  }

  /** The backup is never written over the lookup it copies. */
  lemma BackupNameDiffers(lookup: string, timestamp: string)
    ensures BackupName(lookup, timestamp) != lookup
  {
    SplitHead(lookup, '.');
    var base := Split(lookup, '.')[0];
    var b := BackupName(lookup, timestamp);
    assert b[|base|] == '_';
    if |base| == |lookup| {
      assert |b| > |lookup|;
    } else {
      assert lookup[|base|] == '.';
    }
  }

  /** The documented example: `attacks_lookup.csv` at 2024-01-02 03:04:05. */
  lemma BackupNameExample()
    ensures BackupName("attacks_lookup.csv", "20240102030405")
         == "attacks_lookup_backup_20240102030405.csv"
  {
    var s, p, ts := "attacks_lookup.csv", "attacks_lookup", "20240102030405";
    assert s == p + ['.'] + "csv";
    assert '.' !in p;
    BackupNameOf(s, p, ts);
    ExampleSpelling();
  }

  lemma ExampleSpelling()
    ensures "attacks_lookup" + "_backup_" + "20240102030405" + ".csv"
         == "attacks_lookup_backup_20240102030405.csv"
  {
    var b := "attacks_lookup" + "_backup_" + "20240102030405" + ".csv";
    var expected := "attacks_lookup_backup_20240102030405.csv";
    assert |b| == |expected|;
    forall k | 0 <= k < |b| ensures b[k] == expected[k] {
    }
  }

  /** `| inputlookup X | head 1`: does the lookup hold a row? */
  function CheckQuery(lookup: string): string
  {
    "| inputlookup " + lookup + " | head 1"
  }

  /** `| inputlookup X | outputlookup B`: copy the lookup to its backup. */
  function CopyQuery(lookup: string, backup: string): string
  {
    "| inputlookup " + lookup + " | outputlookup " + backup
  }

  /** `| inputlookup X | stats count`: count the rows of the lookup. */
  function CountQuery(lookup: string): string
  {
    "| inputlookup " + lookup + " | stats count"
  }
}
