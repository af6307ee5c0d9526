/**
 * The mentor dashboard of `mi-web/app/mentor/page.tsx`: `loadData` shows the
 * dashboard summary as fetched, the first five of the mentor's users and the five
 * newest news entries; a failing news endpoint only empties the news panel.
 */
module MentorDashboard {
  import opened Common
  import opened Api
  import opened NewsFeed

  /** The body of `/mentor/dashboard`, shown field by field without any computation. */
  datatype Summary = Summary(totalUsers: int, activeUsers: int, pendingUsers: int,
                             totalLicenses: int, usedLicenses: int, systemName: string, mentorId: string)

  class MentorDashboardPage {
    /** `None` is `null`: before loading, or a `null` dashboard body. */
    var stats: Option<Summary>
    var recentUsers: seq<User>
    var upcomingNews: seq<NewsItem>
    var loading: bool

    constructor ()
      ensures stats == None && recentUsers == [] && upcomingNews == [] && loading
    {
      stats := None;
      recentUsers := [];
      upcomingNews := [];
      loading := true;
    }

    /**
     * `loadData` with the three settled requests as inputs. If the dashboard or the
     * users request rejects nothing is set; otherwise `stats` is the dashboard body,
     * then the users and the news are set in turn until one of them throws.
     * `loading` is cleared in every case.
     */
    method LoadData(dashboardRes: Fetched<Option<Summary>>, usersRes: Fetched<ListBody<User>>,
                    newsRes: Fetched<ListBody<NewsItem>>)
      modifies this
      ensures !loading
      ensures var fetched := dashboardRes.Resolved? && usersRes.Resolved?;
        var users := if usersRes.Resolved? then KeyOnly(usersRes.body) else None;
        && stats == (if fetched then dashboardRes.body else old(stats))
        && recentUsers == (if fetched && users.Some? then TopFive(users.value) else old(recentUsers))
        && upcomingNews ==
             (if fetched && users.Some? && NewsOf(newsRes).Some? then UpcomingNews(NewsOf(newsRes).value)
              else old(upcomingNews))
    {
      if dashboardRes.Rejected? || usersRes.Rejected? {
        // `Promise.all` rejects: straight to the catch block.
        loading := false;
        return;
      }
      stats := dashboardRes.body;
      var users := KeyOnly(usersRes.body);
      if users.None? {
        // `usersRes.users` on `null` throws.
        loading := false;
        return;
      }
      recentUsers := TopFive(users.value);
      var news := NewsOf(newsRes);
      if news.None? {
        // `news.sort` on a non-array throws.
        loading := false;
        return;
      }
      var items := news.value;
      var sorted := new NewsItem[|items|](k requires 0 <= k < |items| => items[k]);
      assert sorted[..] == items;
      SortInPlace(sorted);
      upcomingNews := sorted[..Min(5, sorted.Length)];
      loading := false;
    }
  }

  /**
   * A fresh page whose news request fails still loads: the stats and the users are
   * shown and the news panel is empty.
   */
  method LoadWithoutNews(summary: Option<Summary>, usersRes: ListBody<User>)
    returns (stats: Option<Summary>, recentUsers: seq<User>, upcomingNews: seq<NewsItem>, loading: bool)
    ensures !loading && stats == summary && upcomingNews == []
    ensures usersRes.Object? && usersRes.field.Some? ==> recentUsers == TopFive(usersRes.field.value)
  {
    var page := new MentorDashboardPage();
    page.LoadData(Resolved(summary), Resolved(usersRes), Rejected);
    stats, recentUsers, upcomingNews, loading := page.stats, page.recentUsers, page.upcomingNews, page.loading;
  }
}
