/** The file system as the application sees it: a finite tree that does not change during a run. */
module FileSystem {

  /** A directory that is not listable gives null for its entries; `Special` is neither file nor directory. */
  datatype Fs =
    | File(name: string)
    | Dir(name: string, listable: bool, entries: seq<Fs>)
    | Special(name: string)

  /** `String.endsWith`. */
  predicate EndsWith(s: string, suffix: string) {
    |suffix| <= |s| && s[|s| - |suffix|..] == suffix
  }

  lemma EndsWithSuffix(s: string, suffix: string)
    ensures EndsWith(s, suffix) <==> exists front :: s == front + suffix
  {
    if EndsWith(s, suffix) {
      assert s == s[..|s| - |suffix|] + suffix;
    }
  }
}
