/**
 The build script of the peripheral-access crate: decode the embedded SVD file,
 run svd2rust on it, and write the post-processed result to src/pac.rs one line
 at a time. Decoding and generation happen before the output file is created, so
 a failure in either aborts the build with no output file.
 */
module PacBuild {
  import opened PacText

  datatype Option<T> = None | Some(value: T)

  /** Why the build aborts before anything is written. */
  datatype BuildError = InvalidUtf8 | GenerateFailed

  datatype Status = Built | Aborted(error: BuildError)

  /** The file the build script creates. */
  const PacPath: string := "src/pac.rs"

  /** An open output file: `fs::File` after `File::create`, with everything written to it so far. */
  class OutFile {
    const path: string
    var data: string

    /** `fs::File::create`: a new, empty file at `path`. */
    constructor Create(path: string)
      ensures this.path == path && data == []
    {
      this.path := path;
      data := [];
    }

    /** `write`: appends `buf` to the file. */
    method Write(buf: string)
      modifies this
      ensures data == old(data) + buf
    {
      data := data + buf;
    }
  }

  /**
   The text src/pac.rs ends up holding, or None when the build stops first.
   `svd` is the embedded SVD file after UTF-8 decoding (None when it is not valid
   UTF-8); `generate` stands for svd2rust and yields None when it fails.
   */
  function PacOutput(svd: Option<string>, generate: string -> Option<string>): (out: Option<string>)
    ensures out.Some? <==> AbortReason(svd, generate).None?
    ensures out.Some? ==> out.value == [] || out.value[|out.value| - 1] == '\n'
  {
    if svd.None? then None
    else if generate(svd.value).None? then None
    else Some(PostProcess(generate(svd.value).value, DenyList))
  }

  /** The stage at which the build stops, if it stops. */
  function AbortReason(svd: Option<string>, generate: string -> Option<string>): (reason: Option<BuildError>)
    ensures reason == Some(InvalidUtf8) <==> svd.None?
    ensures reason == Some(GenerateFailed) <==> svd.Some? && generate(svd.value).None?
  {
    if svd.None? then Some(InvalidUtf8)
    else if generate(svd.value).None? then Some(GenerateFailed)
    else None
  }

  /**
   The build script's `main`. An aborted build creates no file; a successful one
   creates src/pac.rs holding exactly the kept lines, each followed by "\n".
   */
  method Build(svd: Option<string>, generate: string -> Option<string>) returns (status: Status, pac: OutFile?)
    ensures status.Aborted? <==> AbortReason(svd, generate).Some?
    ensures status.Aborted? ==> status.error == AbortReason(svd, generate).value && pac == null
    ensures status.Built? ==>
      pac != null && fresh(pac) && pac.path == PacPath && PacOutput(svd, generate) == Some(pac.data)
  {
    if svd.None? {
      return Aborted(InvalidUtf8), null;
    }
    var pacFile := generate(svd.value);
    if pacFile.None? {
      return Aborted(GenerateFailed), null;
    }
    var libRs := Replace(pacFile.value);

    var outFile := new OutFile.Create(PacPath);
    WriteKeptLines(outFile, Lines(libRs), DenyList);
    assert outFile.data == PostProcess(pacFile.value, DenyList);
    return Built, outFile;
  }

  /**
   The `for line in lib_rs.lines()` loop: each line equal to an entry of
   `badStrings` is skipped, every other one is written to `outFile` followed by
   "\n".
   */
  method WriteKeptLines(outFile: OutFile, lines: seq<string>, badStrings: seq<string>)
    modifies outFile
    ensures outFile.data == old(outFile.data) + Join(Filter(lines, badStrings))
  {
    var i := 0;
    while i < |lines|
      invariant 0 <= i <= |lines|
      invariant outFile.data == old(outFile.data) + Join(Filter(lines[..i], badStrings))
    {
      var line := lines[i];
      ghost var done := Join(Filter(lines[..i], badStrings));
      EmitStepAt(lines, i, badStrings);
      if line in badStrings {
        assert Join(Filter(lines[..i + 1], badStrings)) == done;
        i := i + 1;
        continue;
      }
      assert Join(Filter(lines[..i + 1], badStrings)) == done + (line + "\n");
      outFile.Write(line);
      outFile.Write("\n");
      assert outFile.data == old(outFile.data) + done + line + "\n";
      i := i + 1;
    }
    assert lines[..|lines|] == lines;
  }
}
