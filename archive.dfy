/**
 * The bulk photo download: which records contribute a file to the zip
 * archive and what each entry is called. File existence is a predicate
 * parameter (what `fs.existsSync` answers while the loop runs); compression
 * and streaming are not modelled.
 */
module Archive {
  import opened Wrappers
  import opened Text
  import opened Registrations

  predicate HasNoSeparator(s: string, seps: set<char>) {
    forall i :: 0 <= i < |s| ==> s[i] !in seps
  }

  /** `p` without its trailing separators. */
  function StripTrailingSeparators(p: string, seps: set<char>): (q: string)
    ensures |q| <= |p| && q == p[..|q|]
    ensures q == [] || q[|q| - 1] !in seps
    decreases |p|
  {
    if p != [] && p[|p| - 1] in seps then StripTrailingSeparators(p[..|p| - 1], seps) else p
  }

  /** The part of `p` after its last separator (all of `p` when it has none). */
  function AfterLastSeparator(p: string, seps: set<char>): (b: string)
    ensures EndsWith(p, b)
    ensures HasNoSeparator(b, seps)
    decreases |p|
  {
    if p == [] || p[|p| - 1] in seps then []
    else
      var b := AfterLastSeparator(p[..|p| - 1], seps);
      assert p[|p| - |b| - 1..] == p[..|p| - 1][|p| - 1 - |b|..] + [p[|p| - 1]];
      b + [p[|p| - 1]]
  }

  /** Only separators are removed: everything after the kept part is a separator. */
  lemma {:induction false} StripRemovesOnlySeparators(p: string, seps: set<char>)
    ensures var q := StripTrailingSeparators(p, seps);
      forall i :: |q| <= i < |p| ==> p[i] in seps
    decreases |p|
  {
    if p != [] && p[|p| - 1] in seps {
      var front := p[..|p| - 1];
      StripRemovesOnlySeparators(front, seps);
      var q := StripTrailingSeparators(p, seps);
      forall i | |q| <= i < |p| ensures p[i] in seps {
        if i < |front| {
          assert p[i] == front[i];
        }
      }
    }
  }

  /** The result is the whole last component: it is all of `p`, or a separator comes right before it. */
  lemma {:induction false} AfterLastSeparatorIsWholeComponent(p: string, seps: set<char>)
    ensures var b := AfterLastSeparator(p, seps);
      |b| == |p| || p[|p| - |b| - 1] in seps
    decreases |p|
  {
    if p != [] && p[|p| - 1] !in seps {
      var front := p[..|p| - 1];
      AfterLastSeparatorIsWholeComponent(front, seps);
      var b := AfterLastSeparator(front, seps);
      if |b| < |front| {
        assert p[|p| - (|b| + 1) - 1] == front[|front| - |b| - 1];
      }
    }
  }

  /**
   * `path.basename(p)`: trailing separators are ignored, then the last
   * component is taken. `seps` is the platform's separator set (`{'/'}` on
   * POSIX, `{'/', '\\'}` on Windows).
   */
  function Basename(p: string, seps: set<char>): string {
    AfterLastSeparator(StripTrailingSeparators(p, seps), seps)
  }

  lemma {:induction false} AfterLastSeparatorOfJoin(prefix: string, sep: char, name: string, seps: set<char>)
    requires sep in seps && HasNoSeparator(name, seps)
    ensures AfterLastSeparator(prefix + [sep] + name, seps) == name
    decreases |name|
  {
    var p := prefix + [sep] + name;
    if name != [] {
      assert p[..|p| - 1] == prefix + [sep] + name[..|name| - 1];
      AfterLastSeparatorOfJoin(prefix, sep, name[..|name| - 1], seps);
      assert name == name[..|name| - 1] + [name[|name| - 1]];
    }
  }

  /** The base name of a file inside a directory is the file's own name. */
  lemma BasenameOfJoin(dir: string, sep: char, name: string, seps: set<char>)
    requires sep in seps && name != [] && HasNoSeparator(name, seps)
    ensures Basename(dir + [sep] + name, seps) == name
  {
    AfterLastSeparatorOfJoin(dir, sep, name, seps);
  }

  /** One archive entry: the file added and the name it gets inside the zip. */
  datatype Entry = Entry(source: string, name: string)

  /** `reg.photo && fs.existsSync(reg.photo)`. */
  predicate Eligible(r: Registration, fileExists: string -> bool) {
    r.photo.Some? && r.photo.value != "" && fileExists(r.photo.value)
  }

  /** The zip entry name of a record: `${firstName}-${lastName}-` followed by the photo's base name. */
  function EntryName(r: Registration, seps: set<char>): (name: string)
    requires r.photo.Some?
    ensures StartsWith(name, Show(r.firstName) + "-" + Show(r.lastName) + "-")
    ensures EndsWith(name, Basename(r.photo.value, seps))
    ensures |name| == |Show(r.firstName) + "-" + Show(r.lastName) + "-"| + |Basename(r.photo.value, seps)|
  {
    var prefix := Show(r.firstName) + "-" + Show(r.lastName) + "-";
    var base := Basename(r.photo.value, seps);
    assert (prefix + base)[..|prefix|] == prefix;
    assert (prefix + base)[|prefix|..] == base;
    prefix + base
  }

  /** The entry of a record with a photo: the photo file, under its entry name. */
  function EntryFor(r: Registration, seps: set<char>): (e: Entry)
    requires r.photo.Some?
  {
    Entry(r.photo.value, EntryName(r, seps))
  }

  /** The indices of the records that contribute a file, in increasing order. */
  function EligibleIndices(regs: seq<Registration>, fileExists: string -> bool): (ix: seq<nat>)
    ensures forall k :: 0 <= k < |ix| ==> ix[k] < |regs| && Eligible(regs[ix[k]], fileExists)
    ensures forall k, l :: 0 <= k < l < |ix| ==> ix[k] < ix[l]
    ensures forall i :: 0 <= i < |regs| && Eligible(regs[i], fileExists) ==> i in ix
    decreases |regs|
  {
    if regs == [] then []
    else
      var n := |regs| - 1;
      var rest := EligibleIndices(regs[..n], fileExists);
      assert forall k :: 0 <= k < |rest| ==> regs[..n][rest[k]] == regs[rest[k]];
      if Eligible(regs[n], fileExists) then rest + [n] else rest
  }

  /** The entries added to the archive, by the record order of `regs`. */
  function ArchivePlan(regs: seq<Registration>, fileExists: string -> bool, seps: set<char>): seq<Entry>
    decreases |regs|
  {
    if regs == [] then []
    else
      var n := |regs| - 1;
      ArchivePlan(regs[..n], fileExists, seps) + (if Eligible(regs[n], fileExists) then [EntryFor(regs[n], seps)] else [])
  }

  /**
   * Exactly one entry per record with a non-empty photo that exists, in
   * record order: the k-th entry belongs to the k-th such record. Every
   * other record is skipped.
   */
  lemma {:induction false} ArchivePlanExact(regs: seq<Registration>, fileExists: string -> bool, seps: set<char>)
    ensures var plan, ix := ArchivePlan(regs, fileExists, seps), EligibleIndices(regs, fileExists);
      |plan| == |ix| && forall k :: 0 <= k < |plan| ==> plan[k] == EntryFor(regs[ix[k]], seps)
    decreases |regs|
  {
    if regs != [] {
      var n := |regs| - 1;
      var front := regs[..n];
      ArchivePlanExact(front, fileExists, seps);
      var planP, ixP := ArchivePlan(front, fileExists, seps), EligibleIndices(front, fileExists);
      var plan, ix := ArchivePlan(regs, fileExists, seps), EligibleIndices(regs, fileExists);
      var last := if Eligible(regs[n], fileExists) then [EntryFor(regs[n], seps)] else [];
      assert plan == planP + last;
      assert ix == ixP + (if Eligible(regs[n], fileExists) then [n] else []);
      forall k | 0 <= k < |plan| ensures plan[k] == EntryFor(regs[ix[k]], seps) {
        if k < |planP| {
          assert plan[k] == planP[k] && ix[k] == ixP[k];
          assert front[ixP[k]] == regs[ixP[k]];
        }
      }
    }
  }

  /**
   * The archive loop: records are visited in order and each eligible one
   * appends its entry; no record makes the loop fail.
   */
  method AddPhotos(regs: seq<Registration>, fileExists: string -> bool, seps: set<char>) returns (entries: seq<Entry>)
    ensures entries == ArchivePlan(regs, fileExists, seps)
    ensures |entries| <= |regs|
  {
    entries := [];
    var i := 0;
    while i < |regs|
      invariant 0 <= i <= |regs|
      invariant entries == ArchivePlan(regs[..i], fileExists, seps)
      invariant |entries| <= i
    {
      var reg := regs[i];
      assert regs[..i + 1][..i] == regs[..i];
      if reg.photo.Some? && reg.photo.value != "" && fileExists(reg.photo.value) {
        var fileName := Basename(reg.photo.value, seps);
        var entry := Entry(reg.photo.value, Show(reg.firstName) + "-" + Show(reg.lastName) + "-" + fileName);
        assert entry == EntryFor(reg, seps);
        assert ArchivePlan(regs[..i + 1], fileExists, seps) == ArchivePlan(regs[..i], fileExists, seps) + [entry];
        entries := entries + [entry];
      }
      i := i + 1;
    }
    assert regs[..i] == regs;
  }
}
