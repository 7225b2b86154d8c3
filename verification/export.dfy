/** The export loop of `main` (main.py:99-121): for every identifier that
    `loadFolder` returned, in order, the message is written to
    `<outdir>/<unid>.eml` unless that file already exists; a fetched body
    has its `<br>` tags removed and its entities decoded, and a body that
    is empty or only whitespace is reported and not written.

    The output directory is a `FileSystem` object whose map from path to
    content the loop updates in place. The HTTP request for one message is
    the parameter `fetch`: the response text for an identifier. */
module Export {
  import opened Text
  import Sanitize

  /** `f"{outdir}/{unid}.eml"`. */
  function OutPath(outDir: string, unid: string): (p: string)
    ensures |p| == |outDir| + |unid| + 5
    ensures p[..|outDir|] == outDir && p[|outDir|] == '/'
    ensures p[|outDir| + 1..|p| - 4] == unid && p[|p| - 4..] == ".eml"
  {
    outDir + "/" + unid + ".eml"
  }

  /** Distinct identifiers never share an output file. */
  lemma OutPathInjective(outDir: string, u: string, v: string)
    ensures OutPath(outDir, u) == OutPath(outDir, v) <==> u == v
  {
    if OutPath(outDir, u) == OutPath(outDir, v) {
      var p := OutPath(outDir, u);
      assert u == p[|outDir| + 1..|p| - 4];
    }
  }

  /** The text that would be written for `unid`: the response with `<br>`
      removed, then unescaped (main.py:111-112). */
  function Mail(fetch: string -> string, unid: string): string {
    Sanitize.Sanitize(fetch(unid))
  }

  /** A body refused as empty: `_mail.strip() == ""`, which holds exactly
      when every character is whitespace (`StripEmptyIff`). */
  predicate Blank(mail: string) {
    forall i | 0 <= i < |mail| :: IsSpace(mail[i])
  }

  /** What happened to one identifier: its file existed and nothing was
      requested, its body was empty and nothing was written, or it was
      written. */
  datatype Outcome = Skipped | EmptyBody | Written

  /** The directory after a run and the outcome for each identifier. */
  datatype Run = Run(files: map<string, string>, log: seq<Outcome>)

  /** The run over `unids`, starting from the directory `files`. */
  function Export(outDir: string, fetch: string -> string, files: map<string, string>, unids: seq<string>): (r: Run)
    ensures |r.log| == |unids|
    decreases |unids|
  {
    if unids == [] then Run(files, [])
    else
      var prev := Export(outDir, fetch, files, unids[..|unids| - 1]);
      var unid := unids[|unids| - 1];
      var path := OutPath(outDir, unid);
      if path in prev.files then Run(prev.files, prev.log + [Skipped])
      else if Blank(Mail(fetch, unid)) then Run(prev.files, prev.log + [EmptyBody])
      else Run(prev.files[path := Mail(fetch, unid)], prev.log + [Written])
  }

  /** The output directory: file paths and their contents. */
  class FileSystem {
    var files: map<string, string>

    /** `os.path.exists(path)`. */
    method Exists(path: string) returns (b: bool)
      ensures b <==> path in files
    {
      b := path in files;
    }

    /** `open(path, "w").write(content)`: creates or replaces the file. */
    method WriteFile(path: string, content: string)
      modifies this
      ensures files == old(files)[path := content]
    {
      files := files[path := content];
    }
  }

  /** The `for unid in notesunids` loop, counting identifiers in `_t`. */
  method ExportAll(fs: FileSystem, outDir: string, unids: seq<string>, fetch: string -> string)
    returns (processed: nat, log: seq<Outcome>)
    modifies fs
    ensures Run(fs.files, log) == Export(outDir, fetch, old(fs.files), unids)
    ensures processed == |unids|
  {
    ghost var initial := fs.files;
    processed := 0;
    log := [];
    while processed < |unids|
      invariant processed <= |unids|
      invariant Run(fs.files, log) == Export(outDir, fetch, initial, unids[..processed])
    {
      var unid := unids[processed];
      var outFileName := OutPath(outDir, unid);
      assert unids[..processed + 1][..processed] == unids[..processed];
      processed := processed + 1;
      var found := fs.Exists(outFileName);
      if found {
        log := log + [Skipped];
      } else {
        var mail := Sanitize.Sanitize(fetch(unid));
        StripEmptyIff(mail);
        if Strip(mail) == "" {
          log := log + [EmptyBody];
        } else {
          fs.WriteFile(outFileName, mail);
          log := log + [Written];
        }
      }
    }
    assert unids[..processed] == unids;
  }

  /** Files present before the run are left as they were: an existing
      file is never requested again nor overwritten. */
  lemma {:induction false} ExportKeepsExisting(outDir: string, fetch: string -> string, files: map<string, string>, unids: seq<string>)
    ensures var r := Export(outDir, fetch, files, unids);
            forall p | p in files :: p in r.files && r.files[p] == files[p]
    decreases |unids|
  {
    if unids != [] {
      ExportKeepsExisting(outDir, fetch, files, unids[..|unids| - 1]);
    }
  }

  /** Every file the run creates is the output file of one of the
      identifiers and holds that identifier's non-blank mail. */
  lemma {:induction false} ExportNewFiles(outDir: string, fetch: string -> string, files: map<string, string>, unids: seq<string>)
    ensures var r := Export(outDir, fetch, files, unids);
            forall p | p in r.files && p !in files ::
              exists i | 0 <= i < |unids| ::
                p == OutPath(outDir, unids[i]) && r.files[p] == Mail(fetch, unids[i]) && !Blank(r.files[p])
    decreases |unids|
  {
    if unids != [] {
      var init := unids[..|unids| - 1];
      ExportNewFiles(outDir, fetch, files, init);
      var prev := Export(outDir, fetch, files, init);
      var r := Export(outDir, fetch, files, unids);
      var last := |unids| - 1;
      forall p | p in r.files && p !in files
        ensures exists i | 0 <= i < |unids| ::
                  p == OutPath(outDir, unids[i]) && r.files[p] == Mail(fetch, unids[i]) && !Blank(r.files[p])
      {
        if p == OutPath(outDir, unids[last]) && OutPath(outDir, unids[last]) !in prev.files {
          assert r.files[p] == Mail(fetch, unids[last]);
        } else {
          assert p in prev.files && r.files[p] == prev.files[p];
          var i :| 0 <= i < |init| && p == OutPath(outDir, init[i])
                   && prev.files[p] == Mail(fetch, init[i]) && !Blank(prev.files[p]);
          assert init[i] == unids[i];
        }
      }
    }
  }

  /** A file of the run that was not there before belongs to a non-blank
      mail: the output file of `u` is present after the run only if it was
      present before or the mail of `u` is not blank. */
  lemma PresentMeansContent(outDir: string, fetch: string -> string, files: map<string, string>, unids: seq<string>, u: string)
    requires OutPath(outDir, u) in Export(outDir, fetch, files, unids).files
    ensures OutPath(outDir, u) in files || !Blank(Mail(fetch, u))
  {
    var p := OutPath(outDir, u);
    if p !in files {
      ExportNewFiles(outDir, fetch, files, unids);
      var r := Export(outDir, fetch, files, unids);
      var j :| 0 <= j < |unids| && p == OutPath(outDir, unids[j]) && r.files[p] == Mail(fetch, unids[j]) && !Blank(r.files[p]);
      OutPathInjective(outDir, unids[j], u);
    }
  }

  /** After the run, an identifier's file exists exactly when it existed
      before or its mail is not blank: no message with content is missed. */
  lemma {:induction false} ExportCoverage(outDir: string, fetch: string -> string, files: map<string, string>, unids: seq<string>)
    ensures var r := Export(outDir, fetch, files, unids);
            forall i | 0 <= i < |unids| ::
              OutPath(outDir, unids[i]) in r.files <==>
                OutPath(outDir, unids[i]) in files || !Blank(Mail(fetch, unids[i]))
    decreases |unids|
  {
    if unids != [] {
      var init := unids[..|unids| - 1];
      var last := |unids| - 1;
      ExportCoverage(outDir, fetch, files, init);
      ExportKeepsExisting(outDir, fetch, files, unids);
      var prev := Export(outDir, fetch, files, init);
      var r := Export(outDir, fetch, files, unids);
      assert prev.files.Keys <= r.files.Keys;
      forall i | 0 <= i < |unids|
        ensures OutPath(outDir, unids[i]) in r.files <==>
                  OutPath(outDir, unids[i]) in files || !Blank(Mail(fetch, unids[i]))
      {
        var p := OutPath(outDir, unids[i]);
        if p in r.files {
          PresentMeansContent(outDir, fetch, files, unids, unids[i]);
        } else if i < last {
          assert init[i] == unids[i];
        } else {
          assert p !in prev.files && p !in files;
        }
      }
    }
  }

  /** The log of a run over a prefix is the prefix of the log. */
  lemma {:induction false} ExportPrefix(outDir: string, fetch: string -> string, files: map<string, string>, unids: seq<string>, k: nat)
    requires k <= |unids|
    ensures Export(outDir, fetch, files, unids[..k]).log == Export(outDir, fetch, files, unids).log[..k]
    decreases |unids|
  {
    if k < |unids| {
      var init := unids[..|unids| - 1];
      ExportPrefix(outDir, fetch, files, init, k);
      assert init[..k] == unids[..k];
    } else {
      assert unids[..k] == unids;
    }
  }

  /** The outcome logged for the `i`-th identifier: skipped when its file
      existed before the run or an earlier occurrence of the same
      identifier wrote it, refused when its mail is blank, and written
      otherwise. */
  lemma ExportOutcome(outDir: string, fetch: string -> string, files: map<string, string>, unids: seq<string>, i: nat)
    requires i < |unids|
    ensures var u := unids[i];
            Export(outDir, fetch, files, unids).log[i] ==
              if OutPath(outDir, u) in files then Skipped
              else if Blank(Mail(fetch, u)) then EmptyBody
              else if u in unids[..i] then Skipped
              else Written
  {
    var u := unids[i];
    var p := OutPath(outDir, u);
    var upto := unids[..i + 1];
    var before := unids[..i];
    assert upto[..i] == before && upto[i] == u;
    ExportPrefix(outDir, fetch, files, unids, i + 1);
    var prev := Export(outDir, fetch, files, before);
    assert Export(outDir, fetch, files, unids).log[i] == Export(outDir, fetch, files, upto).log[i];
    ExportKeepsExisting(outDir, fetch, files, before);
    ExportNewFiles(outDir, fetch, files, before);
    ExportCoverage(outDir, fetch, files, before);
    if p !in files {
      if u in before {
        var j :| 0 <= j < |before| && before[j] == u;
        assert p in prev.files <==> !Blank(Mail(fetch, u));
      } else if p in prev.files {
        var j :| 0 <= j < |before| && p == OutPath(outDir, before[j]) && !Blank(prev.files[p]);
        OutPathInjective(outDir, before[j], u);
      }
    }
  }

  /** A run from a directory that already holds the file of every
      identifier whose mail is not blank changes nothing: each identifier
      is skipped, or refused again because its mail is blank. */
  lemma {:induction false} ExportSettled(outDir: string, fetch: string -> string, files: map<string, string>, unids: seq<string>)
    requires forall i | 0 <= i < |unids| :: OutPath(outDir, unids[i]) in files || Blank(Mail(fetch, unids[i]))
    ensures var r := Export(outDir, fetch, files, unids);
            r.files == files &&
            forall i | 0 <= i < |unids| ::
              r.log[i] == if OutPath(outDir, unids[i]) in files then Skipped else EmptyBody
    decreases |unids|
  {
    if unids != [] {
      var init := unids[..|unids| - 1];
      forall i | 0 <= i < |init|
        ensures OutPath(outDir, init[i]) in files || Blank(Mail(fetch, init[i]))
      {
        assert init[i] == unids[i];
      }
      ExportSettled(outDir, fetch, files, init);
      var prev := Export(outDir, fetch, files, init);
      var r := Export(outDir, fetch, files, unids);
      forall i | 0 <= i < |unids|
        ensures r.log[i] == if OutPath(outDir, unids[i]) in files then Skipped else EmptyBody
      {
        if i < |init| {
          assert init[i] == unids[i] && r.log[i] == prev.log[i];
        }
      }
    }
  }

  /** Running the export a second time over the same identifiers leaves the
      directory as the first run left it and writes nothing: every message
      with content is skipped without a request, and only the blank ones
      are requested again. */
  lemma ExportIdempotent(outDir: string, fetch: string -> string, files: map<string, string>, unids: seq<string>)
    ensures var first := Export(outDir, fetch, files, unids);
            var second := Export(outDir, fetch, first.files, unids);
            second.files == first.files &&
            forall i | 0 <= i < |unids| ::
              second.log[i] == if Blank(Mail(fetch, unids[i])) && OutPath(outDir, unids[i]) !in files
                               then EmptyBody else Skipped
  {
    var first := Export(outDir, fetch, files, unids);
    ExportCoverage(outDir, fetch, files, unids);
    ExportKeepsExisting(outDir, fetch, files, unids);
    ExportSettled(outDir, fetch, first.files, unids);
  }

  /** A first run over distinct identifiers whose files do not exist yet
      and whose mails all have content writes every one of them. */
  lemma ExportFresh(outDir: string, fetch: string -> string, files: map<string, string>, unids: seq<string>)
    requires forall i | 0 <= i < |unids| :: OutPath(outDir, unids[i]) !in files && !Blank(Mail(fetch, unids[i]))
    requires forall i, j | 0 <= i < j < |unids| :: unids[i] != unids[j]
    ensures forall i | 0 <= i < |unids| :: Export(outDir, fetch, files, unids).log[i] == Written
  {
    forall i | 0 <= i < |unids|
      ensures Export(outDir, fetch, files, unids).log[i] == Written
    {
      ExportOutcome(outDir, fetch, files, unids, i);
    }
  }
}
