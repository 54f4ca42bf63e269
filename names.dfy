/** The names the script derives: remote object names from a version
    (downloadsource.py:117-120), the `.hashes` manifest beside each
    (downloadsource.py:61), their URLs (downloadsource.py:20, 67, 82) and
    their local paths under the working directory (downloadsource.py:63, 80, 125). */
module Names {

  const BaseUrl: string := "https://commondatastorage.googleapis.com/chromium-browser-official/"

  /** The tarball's name; the version sits between the fixed prefix and suffix. */
  function TarballName(version: string): (r: string)
    ensures |r| == |version| + 16
    ensures r[..9] == "chromium-" && r[9..9 + |version|] == version && r[9 + |version|..] == ".tar.xz"
  {
    "chromium-" + version + ".tar.xz"
  }

  /** The test-data tarball's name; the version sits between the fixed prefix and suffix. */
  function TestdataName(version: string): (r: string)
    ensures |r| == |version| + 25
    ensures r[..9] == "chromium-" && r[9..9 + |version|] == version && r[9 + |version|..] == "-testdata.tar.xz"
  {
    "chromium-" + version + "-testdata.tar.xz"
  }

  /** The manifest's name: the artifact's name, then `.hashes`. */
  function HashesName(name: string): (r: string)
    ensures |r| == |name| + 7
    ensures r[..|name|] == name && r[|name|..] == ".hashes"
  {
    name + ".hashes"
  }

  /** The object's URL: the bucket's base URL, then the name. */
  function Url(name: string): (r: string)
    ensures |r| == |BaseUrl| + |name|
    ensures r[..|BaseUrl|] == BaseUrl && r[|BaseUrl|..] == name
  {
    BaseUrl + name
  }

  /** The local path: the working directory, one `/`, then the name. */
  function Path(root: string, name: string): (r: string)
    ensures |r| == |root| + 1 + |name|
    ensures r[..|root|] == root && r[|root|] == '/' && r[|root| + 1..] == name
  {
    root + "/" + name
  }

  lemma PathInjective(root: string, a: string, b: string)
    ensures Path(root, a) == Path(root, b) <==> a == b
  {
    if Path(root, a) == Path(root, b) {
      assert a == Path(root, a)[|root| + 1..];
      assert b == Path(root, b)[|root| + 1..];
    }
  }

  /** The two artifacts of a version and their two manifests are four
      different files, so the two pipeline runs touch disjoint files. */
  lemma NamesOfVersionDistinct(v: string)
    ensures TarballName(v) != HashesName(TarballName(v))
    ensures TestdataName(v) != HashesName(TestdataName(v))
    ensures TarballName(v) != TestdataName(v)
    ensures TarballName(v) != HashesName(TestdataName(v))
    ensures HashesName(TarballName(v)) != TestdataName(v)
    ensures HashesName(TarballName(v)) != HashesName(TestdataName(v))
  {
    var k := 9 + |v|;
    assert TarballName(v)[k] == '.';
    assert HashesName(TarballName(v))[k] == '.';
    assert TestdataName(v)[k] == '-';
    assert HashesName(TestdataName(v))[k] == '-';
    assert |HashesName(TarballName(v))| != |TarballName(v)|;
    assert |HashesName(TestdataName(v))| != |TestdataName(v)|;
  }
}
