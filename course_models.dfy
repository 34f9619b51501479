/** The course record: date validation, the per-owner unique slug chosen on
    save, and whether a course is active on a given day. */
module CourseModels {
  import opened Wrappers
  import opened Users
  import opened Dates
  import opened Text

  type CourseId = nat

  datatype Status = Planned | Active | Paused | Completed

  /** A course row; `id` is `None` until the course is first saved. */
  datatype Course = Course(
    id: Option<CourseId>,
    owner: UserId,
    title: string,
    provider: string,
    description: string,
    startDate: Option<Date>,
    endDate: Option<Date>,
    status: Status,
    colour: string,
    slug: string)

  /** A validation error attached to a form field. */
  datatype FieldError = FieldError(field: string, message: string)

  /** `Course.clean`: rejects an end date earlier than the start date. */
  function Clean(c: Course): (r: Option<FieldError>)
    ensures r.Some? <==> (c.startDate.Some? && c.endDate.Some? && c.endDate.value < c.startDate.value)
    ensures r.Some? ==> r.value.field == "end_date"
  {
    if c.startDate.Some? && c.endDate.Some? && c.endDate.value < c.startDate.value then
      Some(FieldError("end_date", "End date can’t be before start date."))
    else None
  }

  /** `Course.is_active`: status ACTIVE and `today` within the optional dates. */
  function IsActive(c: Course, today: Date): (b: bool)
    ensures b ==> c.status == Active
    ensures b ==> (c.startDate.None? || c.startDate.value <= today)
    ensures b ==> (c.endDate.None? || today <= c.endDate.value)
    ensures (c.status == Active && (c.startDate.None? || c.startDate.value <= today)
             && (c.endDate.None? || today <= c.endDate.value)) ==> b
  {
    if c.status != Active then false
    else if c.startDate.Some? && c.startDate.value > today then false
    else if c.endDate.Some? && c.endDate.value < today then false
    else true
  }

  /** The `uniq_owner_title_per_course` constraint over the course table. */
  predicate UniqueOwnerTitle(table: seq<Course>)
  {
    forall i, j :: 0 <= i < j < |table| ==>
      !(table[i].owner == table[j].owner && table[i].title == table[j].title)
  }

  /** Whether row `c` is the course being saved (`exclude(pk=self.pk)`; an
      unsaved course excludes nothing). */
  predicate SameRow(c: Course, self: Course)
  {
    self.id.Some? && c.id == self.id
  }

  /** Slugs held by the other courses of the saved course's owner. */
  function TakenSlugs(self: Course, table: seq<Course>): set<string>
  {
    set c | c in table && c.owner == self.owner && !SameRow(c, self) :: c.slug
  }

  /** The `k`-th slug tried: the base itself, then `base-2`, `base-3`, ... */
  function Candidate(base: string, k: nat): string
  {
    if k <= 1 then base else base + "-" + NatToString(k)
  }

  lemma CandidateInjective(base: string, j: nat, k: nat)
    requires 1 <= j && 1 <= k && j != k
    ensures Candidate(base, j) != Candidate(base, k)
  {
    if j >= 2 && k >= 2 && Candidate(base, j) == Candidate(base, k) {
      var n := |base| + 1;
      assert Candidate(base, j)[n..] == NatToString(j);
      assert Candidate(base, k)[n..] == NatToString(k);
      NatToStringInjective(j, k);
    }
  }

  /** The slug base: the first 120 characters of the slugified title.
      `slugify` itself is a library call, so its result is a parameter. */
  function SlugBase(slugified: string): (b: string)
    ensures |b| <= 120 && |b| <= |slugified| && b == slugified[..|b|]
    ensures |slugified| <= 120 ==> b == slugified
    ensures |b| == if |slugified| <= 120 then |slugified| else 120
  {
    if |slugified| <= 120 then slugified else slugified[..120]
  }

  /** `x` is one of the first `n - 1` candidates. */
  ghost predicate EarlierCandidate(base: string, x: string, n: nat)
  {
    exists j: nat :: 1 <= j < n && x == Candidate(base, j)
  }

  lemma NextCandidateIsNew(base: string, tried: set<string>, n: nat)
    requires 1 <= n
    requires forall x :: x in tried ==> EarlierCandidate(base, x, n)
    ensures Candidate(base, n) !in tried
  {
    if Candidate(base, n) in tried {
      var j: nat :| 1 <= j < n && Candidate(base, n) == Candidate(base, j);
      CandidateInjective(base, j, n);
    }
  }

  /** The suffix search of `Course.save`: tries `base`, `base-2`, `base-3`, ...
      and stops at the first candidate not in `taken`. */
  method FirstFreeCandidate(base: string, taken: set<string>) returns (slug: string, k: nat)
    ensures 1 <= k && slug == Candidate(base, k) && slug !in taken
    ensures forall j: nat :: 1 <= j < k ==> Candidate(base, j) in taken
  {
    slug := base;
    var i: nat := 2;
    ghost var tried: set<string> := {};
    while slug in taken
      invariant 2 <= i && slug == Candidate(base, i - 1)
      invariant forall j: nat :: 1 <= j < i - 1 ==> Candidate(base, j) in taken
      invariant forall x :: x in tried ==> EarlierCandidate(base, x, i - 1)
      invariant tried <= taken
      decreases |taken - tried|
    {
      NextCandidateIsNew(base, tried, i - 1);
      assert taken - (tried + {slug}) < taken - tried;
      ghost var previous := i - 1;
      assert forall j: nat :: 1 <= j <= previous ==> Candidate(base, j) in taken by {
        forall j: nat | 1 <= j <= previous ensures Candidate(base, j) in taken {
          if j == previous {
            assert Candidate(base, j) == slug;
          }
        }
      }
      tried := tried + {slug};
      slug := base + "-" + NatToString(i);
      i := i + 1;
      forall x | x in tried ensures EarlierCandidate(base, x, i - 1) {
        if x == Candidate(base, i - 2) {
          assert 1 <= i - 2 < i - 1;
        } else {
          assert EarlierCandidate(base, x, i - 2);
        }
      }
    }
    k := i - 1;
  }

  /** `Course.save`'s slug step: an existing slug is kept; an empty one becomes
      the first candidate that no other course of the same owner uses. */
  method AssignSlug(self: Course, slugified: string, table: seq<Course>) returns (saved: Course)
    ensures self.slug != "" ==> saved == self
    ensures self.slug == "" ==> saved == self.(slug := saved.slug)
    ensures self.slug == "" ==> saved.slug !in TakenSlugs(self, table)
    ensures self.slug == "" ==>
      exists k: nat :: 1 <= k && saved.slug == Candidate(SlugBase(slugified), k) &&
        forall j: nat :: 1 <= j < k ==> Candidate(SlugBase(slugified), j) in TakenSlugs(self, table)
  {
    if self.slug != "" {
      return self;
    }
    var slug, k := FirstFreeCandidate(SlugBase(slugified), TakenSlugs(self, table));
    saved := self.(slug := slug);
  }
}
