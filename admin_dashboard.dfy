/**
 * The admin dashboard of `mi-web/app/admin/page.tsx`: `loadData` fetches users,
 * mentors, licenses and news, counts the stats cards from the lists, keeps the first
 * five users and the five newest news entries.
 */
module AdminDashboard {
  import opened Common
  import opened Api
  import opened NewsFeed
  import opened Lists

  datatype Mentor = Mentor(name: string, status: string)
  datatype License = License(code: string, used: bool)

  datatype UserStats = UserStats(total: nat, active: nat, pending: nat, paid: nat)
  datatype MentorStats = MentorStats(total: nat, active: nat)
  datatype LicenseStats = LicenseStats(total: nat, used: nat)
  /** `calculatedStats`. */
  datatype Stats = Stats(userStats: UserStats, mentorStats: MentorStats, licenseStats: LicenseStats, totalRevenue: int)

  predicate IsActiveUser(u: User) { u.status == "active" }
  predicate IsPendingUser(u: User) { u.status == "pending" }
  predicate IsPaidUser(u: User) { u.paymentStatus == "paid" }
  predicate IsActiveMentor(m: Mentor) { m.status == "active" }
  predicate IsUsedLicense(l: License) { l.used }

  /**
   * The stats cards, counted from the lists: every count is bounded by its total,
   * active and pending users are disjoint (a user has one status), and revenue is
   * always zero.
   */
  function CalculateStats(users: seq<User>, mentors: seq<Mentor>, licenses: seq<License>): (s: Stats)
    ensures s.userStats.total == |users|
    ensures s.userStats.active <= s.userStats.total && s.userStats.pending <= s.userStats.total
    ensures s.userStats.paid <= s.userStats.total
    ensures s.userStats.active + s.userStats.pending <= s.userStats.total
    ensures s.mentorStats.total == |mentors| && s.mentorStats.active <= s.mentorStats.total
    ensures s.licenseStats.total == |licenses| && s.licenseStats.used <= s.licenseStats.total
    ensures s.totalRevenue == 0
  {
    CountDisjoint(users, IsActiveUser, IsPendingUser);
    Stats(
      UserStats(|users|, Count(users, IsActiveUser), Count(users, IsPendingUser), Count(users, IsPaidUser)),
      MentorStats(|mentors|, Count(mentors, IsActiveMentor)),
      LicenseStats(|licenses|, Count(licenses, IsUsedLicense)),
      0)
  }

  /**
   * `usersData?.users || usersData || []` after `Promise.all`: `None` when the load
   * stops before any state is set (the users request rejected, or its body is an
   * object without `users`, on which `.filter` throws).
   */
  function UsersOf(usersData: Fetched<ListBody<User>>): (r: Option<seq<User>>)
    ensures usersData.Rejected? ==> r.None?
    ensures usersData.Resolved? ==> r == KeyOrSelf(usersData.body)
  {
    match usersData
    case Rejected => None
    case Resolved(body) => KeyOrSelf(body)
  }

  /**
   * `Array.isArray(d) ? d : (d?.key || [])` after `.catch(() => [])`, as the page
   * reads both the mentors and the licenses: a failed request counts as `[]`; a bare
   * array or the keyed list is used as is.
   */
  function ListOrEmpty<T>(data: Fetched<ListBody<T>>): (xs: seq<T>)
    ensures data.Rejected? ==> xs == []
    ensures data.Resolved? ==> xs == ArrayOrKey(data.body)
  {
    ArrayOrKey(CatchWith(data, Array([])))
  }

  class AdminDashboardPage {
    var stats: Option<Stats>
    var recentUsers: seq<User>
    var upcomingNews: seq<NewsItem>
    var loading: bool

    constructor ()
      ensures stats == None && recentUsers == [] && upcomingNews == [] && loading
    {
      stats := None;
      recentUsers := [];
      upcomingNews := [];
      loading := true;
    }

    /**
     * `loadData` with the four settled requests as inputs. The state setters run in
     * source order, so a throw part-way keeps what was set before it; `loading` is
     * cleared in every case.
     */
    method LoadData(usersData: Fetched<ListBody<User>>, mentorsData: Fetched<ListBody<Mentor>>,
                    licensesData: Fetched<ListBody<License>>, newsData: Fetched<ListBody<NewsItem>>)
      modifies this
      ensures !loading
      ensures stats ==
        if UsersOf(usersData).Some?
        then Some(CalculateStats(UsersOf(usersData).value, ListOrEmpty(mentorsData), ListOrEmpty(licensesData)))
        else old(stats)
      ensures recentUsers == if UsersOf(usersData).Some? then TopFive(UsersOf(usersData).value) else old(recentUsers)
      ensures upcomingNews ==
        if UsersOf(usersData).Some? && NewsOf(newsData).Some? then UpcomingNews(NewsOf(newsData).value)
        else old(upcomingNews)
    {
      if usersData.Rejected? {
        // `Promise.all` rejects: straight to the catch block.
        loading := false;
        return;
      }
      var mentorsBody := CatchWith(mentorsData, Array([]));
      var licensesBody := CatchWith(licensesData, Array([]));
      var users := KeyOrSelf(usersData.body);
      var mentors := ArrayOrKey(mentorsBody);
      var licenses := ArrayOrKey(licensesBody);
      var news := NewsOf(newsData);
      if users.None? {
        // `users.filter` on a non-array throws.
        loading := false;
        return;
      }
      stats := Some(CalculateStats(users.value, mentors, licenses));
      recentUsers := TopFive(users.value);
      if news.None? {
        // `news.sort` on a non-array throws.
        loading := false;
        return;
      }
      var items := news.value;
      var sorted := new NewsItem[|items|](k requires 0 <= k < |items| => items[k]);
      assert sorted[..] == items;
      SortInPlace(sorted);
      upcomingNews := sorted[..Min(5, sorted.Length)];
      loading := false;
    }
  }

  /**
   * What a completed load shows: the stats agree with the lists, the recent users are
   * the first `min(5, n)` users in their original order, and the news panel holds the
   * five newest entries, newest first, all taken from the fetched news.
   */
  lemma LoadedDashboard(users: seq<User>, mentors: seq<Mentor>, licenses: seq<License>, news: seq<NewsItem>)
    ensures var s := CalculateStats(users, mentors, licenses);
      s.userStats.active + s.userStats.pending <= s.userStats.total == |users|
    ensures var r := TopFive(users); |r| == Min(5, |users|) && r == users[..|r|]
    ensures var n := UpcomingNews(news);
      |n| <= 5 && NewestFirst(n) && multiset(n) <= multiset(news)
  {
    UpcomingNewsIsTopFive(news);
  }
}
