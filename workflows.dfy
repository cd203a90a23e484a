/** The workflow updater: scan a cloned repository's `.github/workflows` directory for
    files matching `*.y*ml`, rewrite each one's text with the migration table and write
    back only the files whose text changed. */
module Workflows {
  import opened CodeqlUpdates
  import opened Glob
  import opened TextRead

  /** The text the migration would store for the raw file contents `raw`. */
  function MigratedText(raw: string): (r: string)
    ensures |r| <= |raw| && '\r' !in r
  {
    ReadTextHasNoCarriageReturn(raw);
    RewriteAddsOnly3(ReadText(raw), '\r');
    Rewrite(ReadText(raw))
  }

  /** The entry `name` of the listing `fs` is a workflow file whose text the rewrite
      changes, so the migrator writes it back: exactly a matching file whose text, as
      read, holds a v2 key. */
  predicate NeedsUpdate(fs: map<string, string>, name: string): (r: bool)
    ensures r <==> name in fs && IsWorkflowFile(name) && HasV2Key(ReadText(fs[name]))
  {
    name in fs && IsWorkflowFile(name) &&
    (RewriteChangesIff(ReadText(fs[name])); MigratedText(fs[name]) != ReadText(fs[name]))
  }

  /** The entries the glob yields, each of which the migrator reads. */
  function WorkflowNames(fs: map<string, string>): set<string>
  {
    set n | n in fs && IsWorkflowFile(n)
  }

  /** The entries the migrator writes back. */
  function ChangedNames(fs: map<string, string>): set<string>
  {
    set n | n in fs && NeedsUpdate(fs, n)
  }

  /** The directory listing after the migration visited every workflow file except
      those in `pending`. */
  function MigratedExcept(fs: map<string, string>, pending: set<string>): map<string, string>
  {
    map n | n in fs :: if NeedsUpdate(fs, n) && n !in pending then MigratedText(fs[n]) else fs[n]
  }

  /** The directory listing after a full migration. */
  function Migrated(fs: map<string, string>): map<string, string>
  {
    MigratedExcept(fs, {})
  }

  /** What the migration writes reads back as itself: it holds no carriage return. */
  lemma MigratedTextReadsBack(raw: string)
    ensures ReadText(MigratedText(raw)) == MigratedText(raw)
  {
    ReadTextIdentityIff(MigratedText(raw));
  }

  /** After the migration no workflow file's text holds a v2 key, and every other entry
      keeps its exact contents. */
  lemma MigratedHasNoV2Keys(fs: map<string, string>)
    ensures Migrated(fs).Keys == fs.Keys
    ensures forall n :: n in fs && IsWorkflowFile(n) ==> !HasV2Key(ReadText(Migrated(fs)[n]))
    ensures forall n :: n in fs && !IsWorkflowFile(n) ==> Migrated(fs)[n] == fs[n]
  {
    forall n | n in fs && IsWorkflowFile(n)
      ensures !HasV2Key(ReadText(Migrated(fs)[n]))
    {
      if NeedsUpdate(fs, n) {
        MigratedTextReadsBack(fs[n]);
        RewriteRemovesV2Keys(ReadText(fs[n]));
      } else {
        RewriteChangesIff(ReadText(fs[n]));
      }
    }
  }

  /** Running the migration on a directory it already migrated writes nothing and
      leaves it as it is. */
  lemma SecondRunChangesNothing(fs: map<string, string>)
    ensures ChangedNames(Migrated(fs)) == {}
    ensures Migrated(Migrated(fs)) == Migrated(fs)
  {
    var m := Migrated(fs);
    MigratedHasNoV2Keys(fs);
    assert forall n | n in m :: !NeedsUpdate(m, n);
  }

  /** Visiting one more pending entry: the listing gains its migrated text when it
      needs an update and stays as it is otherwise. */
  lemma VisitStep(fs: map<string, string>, pending: set<string>, name: string)
    requires name in pending && name in fs
    ensures name in MigratedExcept(fs, pending) && MigratedExcept(fs, pending)[name] == fs[name]
    ensures MigratedExcept(fs, pending - {name}) ==
      if NeedsUpdate(fs, name) then MigratedExcept(fs, pending)[name := MigratedText(fs[name])]
      else MigratedExcept(fs, pending)
  {
  }

  /** A record of the visited members of `names` stays exact when one more pending
      entry is visited and recorded exactly if it belongs to `names`. */
  lemma VisitRecord(rec: set<string>, names: set<string>, pending: set<string>, name: string)
    requires name in pending && rec == names - pending
    ensures (if name in names then rec + {name} else rec) == names - (pending - {name})
  {
  }

  /** The `.github/workflows` directory of one cloned repository: whether it exists and
      the name and stored contents of each entry. */
  class WorkflowDir {
    var present: bool
    var files: map<string, string>
    /** The entries the last update read, and those it wrote back. */
    ghost var lastReads: set<string>
    ghost var lastWrites: set<string>

    /** A directory that does not exist has no entries. */
    ghost predicate Valid()
      reads this
    {
      present || files == map[]
    }

    constructor (present: bool, files: map<string, string>)
      requires present || files == map[]
      ensures Valid()
      ensures this.present == present && this.files == files
      ensures lastReads == {} && lastWrites == {}
    {
      this.present := present;
      this.files := files;
      lastReads, lastWrites := {}, {};
    }

    /** The body of the scan for one entry: read it, rewrite its text and write it back
        only when the text changed. */
    method VisitFile(name: string) returns (changed: bool)
      requires name in files
      modifies this
      ensures present == old(present) && lastReads == old(lastReads) + {name}
      ensures changed == (MigratedText(old(files)[name]) != ReadText(old(files)[name]))
      ensures files == if changed then old(files)[name := MigratedText(old(files)[name])] else old(files)
      ensures lastWrites == if changed then old(lastWrites) + {name} else old(lastWrites)
    {
      var content := ReadText(files[name]);
      lastReads := lastReads + {name};
      var newContent := RewriteContent(content);
      changed := newContent != content;
      if changed {
        files := files[name := newContent];
        lastWrites := lastWrites + {name};
      }
    }

    /** `find_and_update_workflows`: returns whether any file was written back. */
    method UpdateWorkflows() returns (updated: bool)
      requires Valid()
      modifies this
      ensures Valid() && present == old(present)
      ensures !present ==> !updated && files == old(files) == map[]
      ensures !present ==> lastReads == {} && lastWrites == {}
      ensures present ==> files == Migrated(old(files))
      ensures present ==> (updated <==> ChangedNames(old(files)) != {})
      ensures present ==> lastReads == WorkflowNames(old(files))
      ensures present ==> lastWrites == ChangedNames(old(files))
    {
      lastReads, lastWrites := {}, {};
      if !present {
        return false;
      }
      updated := false;
      ghost var fs := files;
      var pending := WorkflowNames(files);
      while pending != {}
        invariant present && pending <= WorkflowNames(fs)
        invariant files == MigratedExcept(fs, pending)
        invariant lastReads == WorkflowNames(fs) - pending
        invariant lastWrites == ChangedNames(fs) - pending
        invariant updated <==> lastWrites != {}
        decreases pending
      {
        var name :| name in pending;
        VisitStep(fs, pending, name);
        VisitRecord(lastReads, WorkflowNames(fs), pending, name);
        VisitRecord(lastWrites, ChangedNames(fs), pending, name);
        var changed := VisitFile(name);
        updated := updated || changed;
        pending := pending - {name};
      }
    }
  }
}
