/** The two `pathlib.PurePath` attributes the scanner and the folder statistics read: `name` and `suffix`. */
module Paths {
  import opened Text

  /** The final component of a `/`-separated path: everything after its last `/`. */
  function Name(path: string): (r: string)
    ensures '/' !in r
    ensures |r| <= |path| && path[|path| - |r|..] == r
    ensures |r| < |path| ==> path[|path| - |r| - 1] == '/'
  {
    path[RFind(path, '/') + 1..]
  }

  /** `PurePath.suffix` of a file name: from its last dot, unless that dot opens or ends the name. */
  function Suffix(name: string): (r: string)
    ensures r == "" || (2 <= |r| < |name| && r[0] == '.' && '.' !in r[1..] && name[|name| - |r|..] == r)
  {
    var i := RFind(name, '.');
    if 0 < i < |name| - 1 then name[i..] else ""
  }

  /** The components of a relative path, as `PurePath.parts` lists them. */
  function Parts(path: string): seq<string> {
    Split(path, '/')
  }
}
