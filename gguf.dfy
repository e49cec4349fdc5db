/**
 * The choice of the one GGUF file `download_model` fetches from a GGUF
 * repository: keep the `.gguf` files of the listing, then take the first file
 * that contains the best-ranked quantisation tag, falling back to the first
 * `.gguf` file when no tag occurs.
 */
module Gguf {
  import opened Wrappers
  import opened Text

  /** The quantisation tags, best first. */
  const Preference: seq<string> := [".Q4_K_M.gguf", ".Q5_K_M.gguf", ".Q4_0.gguf", ".Q5_0.gguf"]

  /** The repository files that end with `.gguf`, in listing order. */
  function GgufOnly(files: seq<string>): (r: seq<string>)
    ensures |r| <= |files|
    ensures forall f :: f in r <==> f in files && EndsWith(f, ".gguf")
  {
    if files == [] then []
    else if EndsWith(files[0], ".gguf") then [files[0]] + GgufOnly(files[1..])
    else GgufOnly(files[1..])
  }

  /** Filtering a listing split in two filters each part, in order: the kept
      files are the `.gguf` files of the listing in listing order. */
  lemma {:induction false} GgufOnlyAppend(xs: seq<string>, ys: seq<string>)
    ensures GgufOnly(xs + ys) == GgufOnly(xs) + GgufOnly(ys)
    decreases |xs|
  {
    if xs == [] {
      assert xs + ys == ys;
    } else {
      assert (xs + ys)[0] == xs[0];
      assert (xs + ys)[1..] == xs[1..] + ys;
      GgufOnlyAppend(xs[1..], ys);
    }
  }

  /** A single file is kept exactly when it is a `.gguf` file. */
  lemma GgufOnlySingle(f: string)
    ensures GgufOnly([f]) == if EndsWith(f, ".gguf") then [f] else []
  {
    assert [f][1..] == [];
  }

  /** The first kept file is the listing's first `.gguf` file, which the
      fallback of `download_model` takes. */
  lemma {:induction false} GgufOnlyFirst(files: seq<string>, i: nat)
    requires i < |files| && EndsWith(files[i], ".gguf")
    requires forall j :: 0 <= j < i ==> !EndsWith(files[j], ".gguf")
    ensures GgufOnly(files) != [] && GgufOnly(files)[0] == files[i]
    decreases i
  {
    if i > 0 {
      GgufOnlyFirst(files[1..], i - 1);
    }
  }

  /** The first file containing `tag`, if any. */
  function FirstContaining(files: seq<string>, tag: string): (r: Option<nat>)
    ensures r.Some? ==>
      (r.value < |files| && Contains(files[r.value], tag) &&
       forall j :: 0 <= j < r.value ==> !Contains(files[j], tag))
    ensures r.None? ==> forall j :: 0 <= j < |files| ==> !Contains(files[j], tag)
  {
    if files == [] then None
    else if Contains(files[0], tag) then Some(0)
    else
      var r := FirstContaining(files[1..], tag);
      if r.Some? then Some(r.value + 1) else None
  }

  /** The index of the file chosen among `files` (`gguf_files`), by the tags
      `tags[k..]` in order, or the first file when no tag occurs. */
  function ChoiceFrom(files: seq<string>, tags: seq<string>, k: nat): nat
    requires files != [] && k <= |tags|
    decreases |tags| - k
  {
    if k == |tags| then 0
    else
      var r := FirstContaining(files, tags[k]);
      if r.Some? then r.value else ChoiceFrom(files, tags, k + 1)
  }

  /** The file chosen among the `.gguf` files. */
  function Choice(files: seq<string>): string
    requires files != []
  {
    files[ChoiceFrom(files, Preference, 0)]
  }

  /** Some file contains `tag`. */
  predicate TagPresent(files: seq<string>, tag: string) {
    exists f :: f in files && Contains(f, tag)
  }

  /** The choice, stated without the search: when some tag occurs, the chosen
      file is the first one containing the best-ranked tag that occurs; when
      none occurs, it is the first file. */
  lemma {:induction false} ChoiceFromSpec(files: seq<string>, tags: seq<string>, k: nat)
    requires files != [] && k <= |tags|
    ensures var c := ChoiceFrom(files, tags, k);
      c < |files| &&
      ((exists t :: k <= t < |tags| && TagPresent(files, tags[t])) ==>
        exists t :: k <= t < |tags| && Contains(files[c], tags[t]) &&
          (forall u :: k <= u < t ==> !TagPresent(files, tags[u])) &&
          (forall j :: 0 <= j < c ==> !Contains(files[j], tags[t]))) &&
      ((forall t :: k <= t < |tags| ==> !TagPresent(files, tags[t])) ==> c == 0)
    decreases |tags| - k
  {
    if k < |tags| {
      var r := FirstContaining(files, tags[k]);
      if r.Some? {
        assert Contains(files[r.value], tags[k]);
        assert TagPresent(files, tags[k]) by { assert files[r.value] in files; }
      } else {
        ChoiceFromSpec(files, tags, k + 1);
        assert !TagPresent(files, tags[k]) by {
          forall f | f in files ensures !Contains(f, tags[k]) {
            var j :| 0 <= j < |files| && files[j] == f;
          }
        }
      }
    }
  }

  /** The preference loop of `download_model`: for each tag in order, scan the
      files for the first containing it; stop at the first tag that matched; fall
      back to the first file. */
  method PickGgufFile(files: seq<string>) returns (preferred: string)
    requires files != []
    ensures preferred == Choice(files)
    ensures preferred in files
  {
    var found: Option<string> := None;
    var k := 0;
    while k < |Preference|
      invariant 0 <= k <= |Preference|
      invariant ChoiceFrom(files, Preference, 0) == ChoiceFrom(files, Preference, k)
      invariant found.None?
    {
      var tag := Preference[k];
      var j := 0;
      while j < |files|
        invariant 0 <= j <= |files|
        invariant found.None?
        invariant forall i :: 0 <= i < j ==> !Contains(files[i], tag)
      {
        if Contains(files[j], tag) {
          found := Some(files[j]);
          break;
        }
        j := j + 1;
      }
      if found.Some? {
        assert FirstContaining(files, tag) == Some(j);
        break;
      }
      assert FirstContaining(files, tag).None?;
      k := k + 1;
    }
    if found.None? {
      found := Some(files[0]);
    }
    preferred := found.value;
  }
}
