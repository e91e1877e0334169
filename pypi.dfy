/** The name under which `download_file` stores a downloaded file. */
module Pypi {
  import opened Strings
  import Paths

  /** Joining pieces without '/' by '/' puts the last piece after the last '/'. */
  lemma LastPieceOfJoin(url: string, pieces: seq<string>)
    requires |pieces| >= 1 && Join(pieces, "/") == url
    requires forall i :: 0 <= i < |pieces| ==> '/' !in pieces[i]
    ensures Paths.Basename(url) == pieces[|pieces| - 1]
  {
    if |pieces| > 1 {
      JoinSnoc(pieces, "/");
      Paths.BasenameAfterSlash(Join(pieces[..|pieces| - 1], "/"), pieces[|pieces| - 1]);
    }
  }

  /**
   * The local file name: the URL's last '/'-separated piece, cut before its
   * first '#'.
   */
  function LocalFilename(url: string): (name: string)
    ensures '/' !in name && '#' !in name
    ensures name <= Paths.Basename(url)
    ensures name == Partition(Paths.Basename(url), "#").0
    ensures '#' !in Paths.Basename(url) ==> name == Paths.Basename(url)
    ensures '/' !in url && '#' !in url ==> name == url
  {
    var pieces := Split(url, "/");
    var last := pieces[|pieces| - 1];
    SplitAtChar(url, '/');
    LastPieceOfJoin(url, pieces);
    assert last == Paths.Basename(url);
    var (localFilename, _, _) := Partition(last, "#");
    PartitionHeadClean(last, "#");
    ContainsChar(localFilename, '#');
    ContainsChar(last, '#');
    assert localFilename <= last by {
      if Contains(last, "#") {
        assert localFilename + "#" + Partition(last, "#").2 == last;
      }
    }
    localFilename
  }
}
