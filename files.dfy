/**
 * The source tree the evidence points into, as the tools see it through
 * `pathlib`: a map from full path strings to what is there.
 */
module Files {

  datatype Node = File(text: string) | Directory

  type Tree = map<string, Node>

  /** `engine_root / relative_file`, rendered as a path string.  Pathlib's
      normalisation (absolute right-hand sides, `..`, doubled separators) is
      not modelled. */
  function JoinPath(root: string, rel: string): string {
    root + "/" + rel
  }

  /** `Path.exists()`: true for files and for directories. */
  predicate Exists(tree: Tree, path: string) {
    path in tree
  }
}
