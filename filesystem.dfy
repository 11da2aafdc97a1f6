/**
 * The part of the local filesystem the scripts touch: files by path, each
 * holding either the bytes written in binary mode or the text written in
 * text mode. Directories are not modelled; `images_dir.mkdir` is taken as
 * done.
 */
module Files {
  import opened Common

  datatype Content = Bytes(data: seq<byte>) | Text(text: string)

  /** `os.path.getsize`, counting one byte per character of a text file. */
  function Size(c: Content): nat {
    match c
    case Bytes(data) => |data|
    case Text(text) => |text|
  }

  /** Every path outside `touched` is present in `after` exactly when it
      was in `before`, with the same content. */
  ghost predicate SameOutside(before: map<string, Content>, after: map<string, Content>, touched: set<string>) {
    forall p :: p !in touched ==> (p in after <==> p in before) && (p in after ==> after[p] == before[p])
  }

  /** Two steps that each keep the files outside their own paths keep
      the files outside both. */
  lemma SameOutsideTrans(a: map<string, Content>, b: map<string, Content>, c: map<string, Content>,
                         s: set<string>, t: set<string>)
    requires SameOutside(a, b, s) && SameOutside(b, c, t)
    ensures SameOutside(a, c, s + t)
  {
  }

  class FileSystem {
    var files: map<string, Content>

    constructor (initial: map<string, Content>)
      ensures files == initial
    {
      files := initial;
    }

    /** `os.path.exists(path)`. */
    predicate Exists(path: string)
      reads this
    {
      path in files
    }

    /** `open(path, 'wb')`: creates the file, or empties it. */
    method Create(path: string)
      modifies this
      ensures files == old(files)[path := Bytes([])]
    {
      files := files[path := Bytes([])];
    }

    /** `f.write(chunk)` on a file opened in binary mode. */
    method Append(path: string, chunk: seq<byte>)
      requires path in files && files[path].Bytes?
      modifies this
      ensures files == old(files)[path := Bytes(old(files)[path].data + chunk)]
    {
      files := files[path := Bytes(files[path].data + chunk)];
    }

    /** `open(path, 'w')` followed by `f.write(text)`. */
    method WriteText(path: string, text: string)
      modifies this
      ensures files == old(files)[path := Text(text)]
    {
      files := files[path := Text(text)];
    }

    /** `if os.path.exists(path): os.remove(path)`. */
    method RemoveIfExists(path: string)
      modifies this
      ensures files == old(files) - {path}
    {
      files := files - {path};
    }
  }
}
