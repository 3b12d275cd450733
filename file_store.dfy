/** The file helpers of setup.py, `copy` and `create_file`, over a file
    system seen as a map from paths to file contents. Templates live under
    `<root>/templates`, rendered files under `<root>/data`; a path is its
    sequence of components. Ownership, permission bits and directories are
    not part of the model. */
module FileStore {
  import opened Text

  type Path = seq<string>
  type Files = map<Path, string>

  /** `get_dst`: where a file is written, under `data`. */
  function DataPath(root: Path, file: Path): (r: Path)
    ensures |r| == |root| + 1 + |file|
    ensures r[..|root|] == root && r[|root|] == "data" && r[|root| + 1..] == file
  {
    root + ["data"] + file
  }

  /** `get_src`: where its template is read, under `templates`. */
  function TemplatePath(root: Path, file: Path): (r: Path)
    ensures |r| == |root| + 1 + |file|
    ensures r[..|root|] == root && r[|root|] == "templates" && r[|root| + 1..] == file
  {
    root + ["templates"] + file
  }

  /** No destination is ever a template, so writing never changes a source. */
  lemma TemplateIsNeverData(root: Path, f: Path, g: Path)
    ensures TemplatePath(root, f) != DataPath(root, g)
  {
    assert TemplatePath(root, f)[|root|] == "templates";
    assert DataPath(root, g)[|root|] == "data";
  }

  /** The files after `copy(file, env, is_template=isTemplate)`: nothing
      existing is ever changed; the destination appears only when the
      template exists and the destination does not, holding the template's
      text, with `env` substituted into it when `isTemplate` is set. */
  function Copied(fs: Files, root: Path, file: Path, env: map<string, string>, isTemplate: bool,
                  substitute: (string, map<string, string>) -> string): (r: Files)
    ensures forall p :: p in fs ==> p in r && r[p] == fs[p]
    ensures r.Keys == if TemplatePath(root, file) in fs then fs.Keys + {DataPath(root, file)} else fs.Keys
    ensures TemplatePath(root, file) in fs && DataPath(root, file) !in fs ==>
              r[DataPath(root, file)] == if isTemplate then substitute(fs[TemplatePath(root, file)], env)
                                         else fs[TemplatePath(root, file)]
  {
    var src, dst := TemplatePath(root, file), DataPath(root, file);
    if src !in fs then fs
    else if dst in fs then fs
    else fs[dst := if isTemplate then substitute(fs[src], env) else fs[src]]
  }

  /** Copying a second time changes nothing. */
  lemma CopyIdempotent(fs: Files, root: Path, file: Path, env: map<string, string>, isTemplate: bool,
                       substitute: (string, map<string, string>) -> string)
    ensures var once := Copied(fs, root, file, env, isTemplate, substitute);
            Copied(once, root, file, env, isTemplate, substitute) == once
  {
  }

  /** The files after `create_file(file, data=data)`: the destination
      exists afterwards; it holds `data` when that is a non-empty string,
      whether or not the file was there before, and otherwise keeps its old
      contents, or is empty when it is new. No other file changes. */
  function Created(fs: Files, root: Path, file: Path, data: Option<string>): (r: Files)
    ensures r.Keys == fs.Keys + {DataPath(root, file)}
    ensures r[DataPath(root, file)] ==
              if data.Some? && data.value != "" then data.value
              else if DataPath(root, file) in fs then fs[DataPath(root, file)]
              else ""
    ensures forall p :: p in fs && p != DataPath(root, file) ==> r[p] == fs[p]
  {
    var dst := DataPath(root, file);
    var created := if dst !in fs then fs[dst := ""] else fs;
    if data.Some? && data.value != "" then created[dst := data.value] else created
  }

  /** Creating the same file with the same data a second time changes
      nothing. */
  lemma CreateIdempotent(fs: Files, root: Path, file: Path, data: Option<string>)
    ensures Created(Created(fs, root, file, data), root, file, data) == Created(fs, root, file, data)
  {
  }

  /** The file system setup.py writes into, rooted at the directory that
      holds the script. */
  class FileSystem {
    var files: Files
    const root: Path

    constructor (root: Path, files: Files)
      ensures this.root == root && this.files == files
    {
      this.root := root;
      this.files := files;
    }

    /** `copy`: renders a template into the data tree unless the
        destination exists; `missing` reports the template-not-found error
        the source prints before returning. */
    method Copy(file: Path, env: map<string, string>, isTemplate: bool,
                substitute: (string, map<string, string>) -> string)
      returns (missing: bool)
      modifies this
      ensures missing <==> TemplatePath(root, file) !in old(files)
      ensures files == Copied(old(files), root, file, env, isTemplate, substitute)
    {
      var src := TemplatePath(root, file);
      var dst := DataPath(root, file);
      if src !in files {
        return true;
      }
      missing := false;
      if dst !in files {
        var text := files[src];
        if isTemplate {
          text := substitute(text, env);
        }
        files := files[dst := text];
      }
    }

    /** `create_file`: creates the destination empty if it is missing, then
        writes `data` over it when `data` is a non-empty string. */
    method CreateFile(file: Path, data: Option<string>)
      modifies this
      ensures files == Created(old(files), root, file, data)
    {
      var dst := DataPath(root, file);
      if dst !in files {
        files := files[dst := ""];
      }
      if data.Some? && data.value != "" {
        files := files[dst := data.value];
      }
    }
  }
}
