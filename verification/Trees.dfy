/** A directory by what the snapshot code can see of it: its regular files, by portable path. */
module Trees {
  import opened Prelude

  datatype Tree = Tree(files: map<string, Bytes>)
}
