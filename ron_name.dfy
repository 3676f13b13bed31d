/** The pure part of `create_ron_file`: the name of the output file. */
module RonName {
  import opened Wrappers
  import opened Strings

  /** `Iterator::next` on a fresh iterator over `pieces`. */
  function Next(pieces: seq<string>): Option<string>
  {
    if |pieces| == 0 then None else Some(pieces[0])
  }

  /** `filename.split('.').next()`, failing if that is `None`, then `".ron"` appended. */
  function RonFileName(filename: string): (r: Result<string, string>)
    ensures r.Ok?
    ensures r.value == filename[..FindFirst(filename, {'.'})] + ".ron"
  {
    var ronFilename := Next(Split(filename, '.'));
    if ronFilename.None? then Err("Failed to get the ron filename " + filename)
    else Ok(ronFilename.value + ".ron")
  }

  /** The stem is a dot-free prefix of the input name: the text before its first `.`. */
  lemma RonFileNameStem(filename: string)
    ensures var stem := RonFileName(filename).value[..|RonFileName(filename).value| - 4];
            && stem <= filename
            && '.' !in stem
            && (|stem| < |filename| ==> filename[|stem|] == '.')
  {
    var k := FindFirst(filename, {'.'});
    var name := RonFileName(filename).value;
    assert name[..|name| - 4] == filename[..k];
  }

  /** A name without a `.` keeps all of it. */
  lemma DotFreeName(filename: string)
    requires '.' !in filename
    ensures RonFileName(filename) == Ok(filename + ".ron")
  {
    assert filename[..|filename|] == filename;
  }

  /** The name is cut at the first `.`, whatever follows it (`data.v2.csv` gives `data.ron`). */
  lemma FirstDotName(filename: string, k: nat)
    requires k < |filename| && filename[k] == '.' && '.' !in filename[..k]
    ensures RonFileName(filename) == Ok(filename[..k] + ".ron")
  {
    assert FindFirst(filename, {'.'}) == k;
  }

  /** Whatever follows the first `.` is dropped (`my.dir/data.csv` gives `my.ron`). */
  lemma CutAtFirstDot(before: string, after: string)
    requires '.' !in before
    ensures RonFileName(before + "." + after) == Ok(before + ".ron")
  {
    var f := before + "." + after;
    assert f[|before|] == '.' && f[..|before|] == before;
    FirstDotName(f, |before|);
  }

  /** The cut applies to the whole path, directories included: a `.` in a directory name
      moves the output out of the csv file's directory (`./data.csv` gives `.ron`). */
  lemma DottedPathName(dir: string, base: string)
    requires |dir| > 0 && dir[0] == '.'
    ensures RonFileName(dir + "/" + base) == Ok(".ron")
  {
    var rest := dir[1..] + "/" + base;
    assert dir + "/" + base == "" + "." + rest;
    CutAtFirstDot("", rest);
    assert "" + ".ron" == ".ron";
  }

  /** Length of the directory part of a path: everything up to and including its last `/`. */
  function DirLength(path: string): (k: nat)
    ensures k <= |path|
    ensures k > 0 ==> path[k - 1] == '/'
    ensures forall i :: k <= i < |path| ==> path[i] != '/'
    decreases |path|
  {
    if path == [] then 0
    else if path[|path| - 1] == '/' then |path|
    else DirLength(path[..|path| - 1])
  }

  /** The output name as the library documents it: in the csv file's directory, with the
      file's own name cut at its first `.` and `.ron` appended. */
  function RonFileNameInDirectory(filename: string): (r: string)
    ensures var d := DirLength(filename);
            && |r| >= d + 4
            && r[..d] == filename[..d]
            && r[|r| - 4..] == ".ron"
            && var stem := r[d..|r| - 4];
               && '/' !in stem && '.' !in stem
               && stem <= filename[d..]
               && (d + |stem| < |filename| ==> filename[d + |stem|] == '.')
  {
    var d := DirLength(filename);
    RonFileNameStem(filename[d..]);
    filename[..d] + RonFileName(filename[d..]).value
  }

  /** On a name without a directory part the corrected name is the one the code computes. */
  lemma InDirectoryAgreesOnPlainNames(filename: string)
    requires '/' !in filename
    ensures RonFileNameInDirectory(filename) == RonFileName(filename).value
  {
    assert DirLength(filename) == 0;
    assert filename[0..] == filename;
  }
}
