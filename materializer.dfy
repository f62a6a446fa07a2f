/** `optimized_copy_from_archive`: placing an archived file into a target
    directory under its sanitised title, by hard link when possible and by
    copy otherwise. */
module Materializer {
  import opened Wrappers
  import opened Text
  import opened Paths
  import opened Disk
  import opened Archive

  /** The extension policy: for "mp3" an ".mp3" suffix in any case becomes
      ".mp3" and any other suffix is kept; "native" keeps the source suffix;
      other containers keep the source suffix, or use "." + container when
      the source has none. */
  function TargetExt(container: string, sourceSuffix: string): (r: string)
    ensures container == "mp3" ==> (r == ".mp3" <==> Lower(sourceSuffix) == ".mp3")
    ensures r != sourceSuffix ==>
      (container == "mp3" && Lower(sourceSuffix) == ".mp3") || (sourceSuffix == "" && r == "." + container)
    ensures container == "native" ==> r == sourceSuffix
    ensures container != "mp3" && container != "native" && sourceSuffix == "" ==> r == "." + container
  {
    if container == "mp3" then (if Lower(sourceSuffix) == ".mp3" then ".mp3" else sourceSuffix)
    else if container == "native" then sourceSuffix
    else if sourceSuffix != "" then sourceSuffix
    else "." + container
  }

  /** `target_dir / f"{sanitize_filename(title)}{target_ext}"` */
  function TargetPath(e: Entry, targetDir: string, container: string, norm: Sanitizer): string {
    Join(targetDir, norm(e.title) + TargetExt(container, Suffix(e.filePath)))
  }

  /** How a materialisation ends. */
  datatype Outcome = SourceMissing | SameFile | Linked | Copied | Failed(residue: Option<real>) {
    /** The value `optimized_copy_from_archive` returns. */
    predicate Succeeded() {
      this == SameFile || this == Linked || this == Copied
    }
  }

  /** The branch `optimized_copy_from_archive` takes with the filesystem
      `mtimes` and the platform `host`. A link fails when the target exists
      or the platform refuses it; the copy then overwrites. */
  function CopyOutcome(e: Entry, targetDir: string, container: string, norm: Sanitizer, mtimes: Mtimes, host: Host): (o: Outcome)
    ensures o == SourceMissing <==> e.filePath !in mtimes
    ensures var dst := TargetPath(e, targetDir, container, norm);
      && (o == SameFile ==> host.resolve(e.filePath) == host.resolve(dst))
      && (o == Linked ==> host.linkAllowed(e.filePath, dst) && dst !in mtimes)
      && (o == Copied ==> host.copyAllowed(e.filePath, dst))
      && (o.Failed? ==> !host.copyAllowed(e.filePath, dst) && o.residue == host.copyResidue(e.filePath, dst))
  {
    var src := e.filePath;
    if src !in mtimes then SourceMissing
    else
      var dst := TargetPath(e, targetDir, container, norm);
      if host.resolve(src) == host.resolve(dst) then SameFile
      else if host.linkAllowed(src, dst) && dst !in mtimes then Linked
      else if host.copyAllowed(src, dst) then Copied
      else Failed(host.copyResidue(src, dst))
  }

  /** The filesystem after the outcome `o`: a link or a copy makes the
      target exist with the source's modification time; a copy that failed
      after opening the target leaves the empty or partial file there. */
  function Placed(mtimes: Mtimes, e: Entry, targetDir: string, container: string, norm: Sanitizer, o: Outcome): Mtimes
    requires o == Linked || o == Copied ==> e.filePath in mtimes
  {
    match o
    case Linked => mtimes[TargetPath(e, targetDir, container, norm) := mtimes[e.filePath]]
    case Copied => mtimes[TargetPath(e, targetDir, container, norm) := mtimes[e.filePath]]
    case Failed(Some(t)) => mtimes[TargetPath(e, targetDir, container, norm) := t]
    case _ => mtimes
  }

  /** `optimized_copy_from_archive(entry, target_dir, container)` */
  method OptimizedCopyFromArchive(e: Entry, targetDir: string, container: string, fs: FileSystem, norm: Sanitizer)
    returns (ok: bool)
    modifies fs
    ensures var o := CopyOutcome(e, targetDir, container, norm, old(fs.mtimes), fs.host);
      ok == o.Succeeded() && fs.mtimes == Placed(old(fs.mtimes), e, targetDir, container, norm, o)
    ensures fs.dirs == old(fs.dirs)
  {
    var src := e.filePath;
    if src !in fs.mtimes {
      return false;
    }
    var ext := TargetExt(container, Suffix(src));
    var dst := Join(targetDir, norm(e.title) + ext);
    if fs.host.resolve(src) == fs.host.resolve(dst) {
      return true;
    }
    if fs.host.linkAllowed(src, dst) && dst !in fs.mtimes {
      fs.mtimes := fs.mtimes[dst := fs.mtimes[src]];
      return true;
    }
    if fs.host.copyAllowed(src, dst) {
      fs.mtimes := fs.mtimes[dst := fs.mtimes[src]];
      return true;
    }
    match fs.host.copyResidue(src, dst) {
      case Some(t) =>
        fs.mtimes := fs.mtimes[dst := t];
      case None =>
    }
    return false;
  }

  // ---------------------------------------------------------------------
  // Properties

  /** A missing source fails and touches nothing. */
  lemma MissingSourceFails(e: Entry, targetDir: string, container: string, norm: Sanitizer, mtimes: Mtimes, host: Host)
    requires e.filePath !in mtimes
    ensures var o := CopyOutcome(e, targetDir, container, norm, mtimes, host);
      !o.Succeeded() && Placed(mtimes, e, targetDir, container, norm, o) == mtimes
  {
  }

  /** A target that resolves to the source itself is a success that
      touches nothing. */
  lemma SameLocationIsNoop(e: Entry, targetDir: string, container: string, norm: Sanitizer, mtimes: Mtimes, host: Host)
    requires e.filePath in mtimes
    requires host.resolve(e.filePath) == host.resolve(TargetPath(e, targetDir, container, norm))
    ensures var o := CopyOutcome(e, targetDir, container, norm, mtimes, host);
      o.Succeeded() && Placed(mtimes, e, targetDir, container, norm, o) == mtimes
  {
  }

  /** After a success the target resolves to the source or exists; in every
      case only the target path may change, and the source stays. */
  lemma SuccessLeavesTargetPresent(e: Entry, targetDir: string, container: string, norm: Sanitizer, mtimes: Mtimes, host: Host)
    ensures var o := CopyOutcome(e, targetDir, container, norm, mtimes, host);
      var dst := TargetPath(e, targetDir, container, norm);
      var after := Placed(mtimes, e, targetDir, container, norm, o);
      && (o.Succeeded() ==> host.resolve(e.filePath) == host.resolve(dst) || dst in after)
      && (o.Succeeded() ==> e.filePath in after)
      && after.Keys <= mtimes.Keys + {dst}
      && (forall p | p in mtimes :: p in after && (p != dst ==> after[p] == mtimes[p]))
  {
  }

  /** A failed copy returns failure and touches nothing but the target; the
      target exists afterwards exactly when it existed before or the copy
      got as far as opening it, which leaves an empty or partial file. */
  lemma FailedCopyTouchesOnlyTarget(e: Entry, targetDir: string, container: string, norm: Sanitizer, mtimes: Mtimes, host: Host)
    ensures var o := CopyOutcome(e, targetDir, container, norm, mtimes, host);
      var dst := TargetPath(e, targetDir, container, norm);
      var after := Placed(mtimes, e, targetDir, container, norm, o);
      o.Failed? ==>
        && !o.Succeeded()
        && mtimes.Keys <= after.Keys
        && (forall p | p in after && p != dst :: p in mtimes && after[p] == mtimes[p])
        && (dst in after <==> dst in mtimes || host.copyResidue(e.filePath, dst).Some?)
  {
    var o := CopyOutcome(e, targetDir, container, norm, mtimes, host);
    var dst := TargetPath(e, targetDir, container, norm);
    if o.Failed? {
      assert o.residue == host.copyResidue(e.filePath, dst);
      match o.residue {
        case Some(t) => assert Placed(mtimes, e, targetDir, container, norm, o) == mtimes[dst := t];
        case None => assert Placed(mtimes, e, targetDir, container, norm, o) == mtimes;
      }
    }
  }

  /** The link is tried first: when the platform allows it and the target is
      free, the outcome is a link, never a copy. */
  lemma LinkBeforeCopy(e: Entry, targetDir: string, container: string, norm: Sanitizer, mtimes: Mtimes, host: Host)
    requires e.filePath in mtimes
    requires var dst := TargetPath(e, targetDir, container, norm);
      host.resolve(e.filePath) != host.resolve(dst) && host.linkAllowed(e.filePath, dst) && dst !in mtimes
    ensures CopyOutcome(e, targetDir, container, norm, mtimes, host) == Linked
  {
  }

  /** For "mp3" and "native" the target extension names the source's own
      format: it differs from the source suffix at most in letter case. */
  lemma AudioTargetKeepsSourceFormat(container: string, sourceSuffix: string)
    requires container == "mp3" || container == "native"
    ensures Lower(TargetExt(container, sourceSuffix)) == Lower(sourceSuffix)
  {
    if container == "mp3" && Lower(sourceSuffix) == ".mp3" {
      assert Lower(".mp3") == ".mp3";
    }
  }

  /** An ".MP3" source under "mp3" gets the lower-case ".mp3"; a ".webm"
      source keeps ".webm" under "mp3" as well as under "native". */
  lemma AudioExtensionExamples()
    ensures TargetExt("mp3", ".MP3") == ".mp3"
    ensures TargetExt("mp3", ".webm") == ".webm"
    ensures TargetExt("native", ".webm") == ".webm"
  {
    assert Lower(".MP3") == ".mp3";
    assert Lower(".webm") != ".mp3";
  }

  /** For any other container the extension is never empty: a suffix-less
      source gets "." + container. */
  lemma VideoTargetHasExtension(container: string, sourceSuffix: string)
    requires container != "mp3" && container != "native"
    requires sourceSuffix == "" || sourceSuffix[0] == '.'
    ensures var ext := TargetExt(container, sourceSuffix);
      |ext| >= 1 && ext[0] == '.' && (sourceSuffix != "" ==> ext == sourceSuffix)
  {
  }
}
