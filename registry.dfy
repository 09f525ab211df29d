/**
 * The biodiversity-site registry: three parallel fixed-size arrays (site
 * name, department, area in hectares) filled from the front, a counter of
 * the sites held, and the query for the department with most sites.
 */
module Registry {

  import opened JavaInt
  import opened Tally

  /** The capacity of the registry. */
  const MAX_SITES: nat := 30

  /** What the "department with most sites" query reports. */
  datatype Report = NoSites | Leader(department: string, sites: int)

  class SiteRegistry {
    var names: array<string>
    var departments: array<string>
    var areas: array<Int32>
    var count: nat

    /** The arrays have the fixed capacity, the two string arrays are
        separate objects, and the counter never passes the capacity. */
    ghost predicate Valid()
      reads this
    {
      names.Length == MAX_SITES && departments.Length == MAX_SITES &&
      areas.Length == MAX_SITES && names != departments &&
      count <= MAX_SITES
    }

    /** The registered site names, departments and areas, in registration order. */
    ghost function Names(): seq<string>
      reads this, names
      requires Valid()
    {
      names[..count]
    }

    ghost function Departments(): seq<string>
      reads this, departments
      requires Valid()
    {
      departments[..count]
    }

    ghost function Areas(): seq<Int32>
      reads this, areas
      requires Valid()
    {
      areas[..count]
    }

    /** The registry at program start: no sites. */
    constructor ()
      ensures Valid() && count == 0
      ensures fresh(names) && fresh(departments) && fresh(areas)
      ensures names[..] == seq(MAX_SITES, _ => "") && departments[..] == seq(MAX_SITES, _ => "")
      ensures areas[..] == seq(MAX_SITES, _ => 0)
    {
      names := new string[MAX_SITES](_ => "");
      departments := new string[MAX_SITES](_ => "");
      areas := new Int32[MAX_SITES](_ => 0);
      count := 0;
    }

    /** Registers one site. When the registry is full nothing changes and
        `ok` is false; otherwise the site is written at position `count`,
        the counter goes up by one, and every other entry is left as it was. */
    method Register(name: string, department: string, area: Int32) returns (ok: bool)
      requires Valid()
      modifies this`count, names, departments, areas
      ensures Valid()
      ensures ok <==> old(count) < MAX_SITES
      ensures ok ==> (count == old(count) + 1 &&
                      names[..] == old(names[..])[old(count) := name] &&
                      departments[..] == old(departments[..])[old(count) := department] &&
                      areas[..] == old(areas[..])[old(count) := area])
      ensures ok ==> (Names() == old(Names()) + [name] &&
                      Departments() == old(Departments()) + [department] &&
                      Areas() == old(Areas()) + [area])
      ensures !ok ==> (count == old(count) == MAX_SITES &&
                       unchanged(names) && unchanged(departments) && unchanged(areas))
    {
      if count >= MAX_SITES {
        return false;
      }
      names[count] := name;
      departments[count] := department;
      areas[count] := area;
      count := count + 1;
      ok := true;
    }

    /** One step of the first scan: look `current` up among the first `n`
        listed departments; at the first match bump that count and stop,
        and when there is none list `current` at position `n` with count 1. */
    static method RecordDepartment(unique: array<string>, counts: array<int>, n: nat, current: string)
      returns (n': nat)
      requires n < unique.Length && n < counts.Length
      modifies unique, counts
      ensures n' <= n + 1 && n' <= unique.Length && n' <= counts.Length
      ensures (unique[..n'], counts[..n']) == AddToTally(old(unique[..n]), old(counts[..n]), current)
    {
      ghost var listed, tally := unique[..n], counts[..n];
      var found := false;
      var j := 0;
      while j < n
        invariant 0 <= j <= n
        invariant forall t :: 0 <= t < j ==> unique[t] != current
        invariant unique[..n] == listed && counts[..n] == tally
      {
        if unique[j] == current {
          assert FirstIndex(listed, current) == j by {
            assert listed[j] == current;
          }
          counts[j] := counts[j] + 1;
          found := true;
          assert counts[..n] == tally[j := tally[j] + 1];
          break;
        }
        j := j + 1;
      }
      if !found {
        assert current !in listed;
        unique[n] := current;
        counts[n] := 1;
        n' := n + 1;
        assert unique[..n'] == listed + [current];
        assert counts[..n'] == tally + [1];
      } else {
        n' := n;
      }
    }

    /** The first scan of the query: for each registered department, look
        it up among the departments already listed and bump its count, or
        list it with count 1. The result lists every registered department
        once, in order of first registration, beside its number of sites,
        and the counts add up to the number of sites. */
    method BuildTally() returns (unique: array<string>, counts: array<int>, n: nat)
      requires Valid()
      ensures fresh(unique) && fresh(counts)
      ensures unique.Length == MAX_SITES && counts.Length == MAX_SITES
      ensures n <= count
      ensures unique[..n] == Distinct(Departments())
      ensures counts[..n] == CountsOf(Departments(), unique[..n])
      ensures Sum(counts[..n]) == count
    {
      unique := new string[MAX_SITES];
      counts := new int[MAX_SITES];
      n := 0;
      ghost var s := Departments();
      for i := 0 to count
        invariant n <= i
        invariant unique[..n] == Distinct(s[..i])
        invariant counts[..n] == CountsOf(s[..i], Distinct(s[..i]))
      {
        var current := departments[i];
        ghost var listed, tally := unique[..n], counts[..n];
        assert s[..i + 1] == s[..i] + [current];
        n := RecordDepartment(unique, counts, n, current);
        TallyExtend(s[..i], current, listed, tally, unique[..n], counts[..n]);
      }
      assert s[..count] == s;
      TallyTotal(s);
    }

    /** The second scan of the query: walk the tally keeping the first
        entry whose count is strictly greater than every count before it.
        The scan starts from an empty name and a count of 0, so it reports
        those when no entry has a positive count; otherwise it reports the
        greatest count and the first entry that has it. */
    static method LeadingEntry(unique: array<string>, counts: array<int>, n: nat)
      returns (best: string, maxSites: int, ghost k: nat)
      requires n <= unique.Length && n <= counts.Length
      ensures 0 <= maxSites
      ensures forall j :: 0 <= j < n ==> counts[j] <= maxSites
      ensures maxSites == 0 ==> best == ""
      ensures k <= n
      ensures 0 < maxSites ==> k < n && best == unique[k] && counts[k] == maxSites
      ensures forall j :: 0 <= j < k ==> counts[j] < maxSites
    {
      maxSites := 0;
      best := "";
      k := 0;
      for i := 0 to n
        invariant k <= i && 0 <= maxSites
        invariant maxSites == 0 ==> best == "" && k == 0
        invariant 0 < maxSites ==> k < i && best == unique[k] && counts[k] == maxSites
        invariant forall j :: 0 <= j < i ==> counts[j] <= maxSites
        invariant forall j :: 0 <= j < k ==> counts[j] < maxSites
      {
        if counts[i] > maxSites {
          maxSites := counts[i];
          best := unique[i];
          k := i;
        }
      }
    }

    /** The query: with no sites it reports so and builds nothing; otherwise
        it tallies the departments and scans the tally for a strictly greater
        count, so it reports the department with most sites, and among equals
        the one registered first. */
    method TopDepartment() returns (r: Report)
      requires Valid()
      ensures r == NoSites <==> count == 0
      ensures r.Leader? ==> IsTop(Departments(), r.department, r.sites)
    {
      if count == 0 {
        return NoSites;
      }
      var unique, counts, n := BuildTally();
      ghost var s, u := Departments(), unique[..n];
      DistinctElements(s);
      assert s[0] in u;
      CountZero(s, u[0]);
      assert counts[0] == counts[..n][0] >= 1;
      var best, maxSites, k := LeadingEntry(unique, counts, n);
      forall j | 0 <= j < n
        ensures counts[j] == Count(s, u[j])
      {
        assert counts[j] == counts[..n][j];
      }
      TopFromTally(s, k);
      r := Leader(best, maxSites);
    }
  }
}
