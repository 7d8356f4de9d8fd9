/**
  The status table behind `/get_task_list`: for every configured SDR, what it
  is doing. Tasks are indexed by the text of their `device_idx`, then each
  SDR is classified as not tasked, scanning, or decoding a frequency.

  Python's `str()` on SDR ids and device indices is the parameter `show`,
  and the `"%.3f"` rendering of the frequency in MHz is the parameter `render`.
*/
module TaskStatus {

  /** A key of `autorx.task_list`: the text `'SCAN'` (or other text) or a frequency in Hz. */
  datatype TaskKey = Named(name: string) | Frequency(hz: real)

  /** One entry of `autorx.task_list`, in iteration order. */
  datatype Task<D> = Task(key: TaskKey, device: D)

  const ScanTask: string := "SCAN"
  const NotTasked: string := "Not Tasked"
  const Scanning: string := "Scanning"
  const DecodingUnknown: string := "Decoding (?? MHz)"

  function Decoding(mhz: string): string
  {
    "Decoding (" + mhz + " MHz)"
  }

  /** Some task runs on the device shown as `k`. */
  ghost predicate Tasked<D>(tasks: seq<Task<D>>, show: D -> string, k: string)
  {
    exists i :: 0 <= i < |tasks| && show(tasks[i].device) == k
  }

  /** Task `i` is the last one that runs on the device shown as `k`. */
  ghost predicate LastOn<D>(tasks: seq<Task<D>>, show: D -> string, i: int, k: string)
  {
    0 <= i < |tasks| && show(tasks[i].device) == k
    && forall j :: i < j < |tasks| ==> show(tasks[j].device) != k
  }

  /**
    The first loop of `flask_get_task_list`: `_task_list[str(device_idx)] = task`.
    When two tasks name the same device the later one wins.
  */
  function IndexTasks<D>(tasks: seq<Task<D>>, show: D -> string): (idx: map<string, TaskKey>)
    ensures forall k :: k in idx <==> Tasked(tasks, show, k)
    ensures forall k :: k in idx ==> exists i :: LastOn(tasks, show, i, k) && idx[k] == tasks[i].key
  {
    if |tasks| == 0 then map[]
    else
      var n := |tasks| - 1;
      var prev := IndexTasks(tasks[..n], show);
      var idx := prev[show(tasks[n].device) := tasks[n].key];
      IndexTasksKeys(tasks, tasks[..n], show, prev, idx);
      IndexTasksLast(tasks, tasks[..n], show, prev, idx);
      idx
  }

  lemma IndexTasksKeys<D>(tasks: seq<Task<D>>, pre: seq<Task<D>>, show: D -> string,
                          prev: map<string, TaskKey>, idx: map<string, TaskKey>)
    requires |tasks| > 0 && pre == tasks[..|tasks| - 1]
    requires forall k :: k in prev <==> Tasked(pre, show, k)
    requires idx == prev[show(tasks[|tasks| - 1].device) := tasks[|tasks| - 1].key]
    ensures forall k :: k in idx <==> Tasked(tasks, show, k)
  {
    var n := |tasks| - 1;
    forall k ensures k in idx <==> Tasked(tasks, show, k) {
      if Tasked(tasks, show, k) && k != show(tasks[n].device) {
        var i :| 0 <= i < |tasks| && show(tasks[i].device) == k;
        assert tasks[..n][i] == tasks[i];
      }
      if Tasked(tasks[..n], show, k) {
        var i :| 0 <= i < n && show(tasks[..n][i].device) == k;
        assert tasks[..n][i] == tasks[i];
      }
    }
  }

  lemma IndexTasksLast<D>(tasks: seq<Task<D>>, pre: seq<Task<D>>, show: D -> string,
                          prev: map<string, TaskKey>, idx: map<string, TaskKey>)
    requires |tasks| > 0 && pre == tasks[..|tasks| - 1]
    requires forall k :: k in prev ==> exists i :: LastOn(pre, show, i, k) && prev[k] == pre[i].key
    requires idx == prev[show(tasks[|tasks| - 1].device) := tasks[|tasks| - 1].key]
    ensures forall k :: k in idx ==> exists i :: LastOn(tasks, show, i, k) && idx[k] == tasks[i].key
  {
    var n := |tasks| - 1;
    forall k | k in idx ensures exists i :: LastOn(tasks, show, i, k) && idx[k] == tasks[i].key {
      if k == show(tasks[n].device) {
        assert LastOn(tasks, show, n, k);
      } else {
        var i :| LastOn(tasks[..n], show, i, k) && prev[k] == tasks[..n][i].key;
        assert tasks[..n][i] == tasks[i];
        forall j | i < j < |tasks| ensures show(tasks[j].device) != k {
          if j < n { assert tasks[..n][j] == tasks[j]; }
        }
        assert LastOn(tasks, show, i, k);
      }
    }
  }

  /** The index holds, for a device, the key of the last task on it. */
  lemma IndexHoldsLast<D>(tasks: seq<Task<D>>, show: D -> string, i: int, k: string)
    requires LastOn(tasks, show, i, k)
    ensures k in IndexTasks(tasks, show) && IndexTasks(tasks, show)[k] == tasks[i].key
  {
  }

  /**
    The status a task key gives its SDR: `'SCAN'` scans; a frequency is
    divided by 1e6 and rendered; any other key makes the division raise,
    and the handler reports an unknown frequency.
  */
  function KeyStatus(key: TaskKey, render: real -> string): string
  {
    match key
    case Named(name) => if name == ScanTask then Scanning else DecodingUnknown
    case Frequency(hz) => Decoding(render(hz / 1000000.0))
  }

  /** One SDR's status, given the task index: the body of the second loop. */
  function Classify(idx: map<string, TaskKey>, sdr: string, render: real -> string): string
  {
    if sdr !in idx then NotTasked else KeyStatus(idx[sdr], render)
  }

  /** The second loop of `flask_get_task_list`, over the configured SDRs in order. */
  function SdrStatuses<D>(sdrs: seq<D>, idx: map<string, TaskKey>, show: D -> string, render: real -> string)
    : (st: map<string, string>)
    ensures st.Keys == set i | 0 <= i < |sdrs| :: show(sdrs[i])
    ensures forall k :: k in st ==> st[k] == Classify(idx, k, render)
  {
    if |sdrs| == 0 then map[]
    else
      var n := |sdrs| - 1;
      var prev := SdrStatuses(sdrs[..n], idx, show, render);
      var st := prev[show(sdrs[n]) := Classify(idx, show(sdrs[n]), render)];
      assert st.Keys == set i | 0 <= i < |sdrs| :: show(sdrs[i]) by {
        forall k | k in st ensures exists i :: 0 <= i < |sdrs| && show(sdrs[i]) == k {
          if k != show(sdrs[n]) {
            var i :| 0 <= i < n && show(sdrs[..n][i]) == k;
            assert sdrs[..n][i] == sdrs[i];
          }
        }
        forall i | 0 <= i < |sdrs| ensures show(sdrs[i]) in st {
          if i < n { assert sdrs[..n][i] == sdrs[i]; }
        }
      }
      st
  }

  /**
    `flask_get_task_list`: one status per configured SDR, keyed by its text.
    An SDR no task runs on is "Not Tasked"; otherwise the last task on it
    decides, through `KeyStatus`.
  */
  function TaskList<D>(sdrs: seq<D>, tasks: seq<Task<D>>, show: D -> string, render: real -> string)
    : (st: map<string, string>)
    ensures st.Keys == set i | 0 <= i < |sdrs| :: show(sdrs[i])
    ensures forall k :: k in st && !Tasked(tasks, show, k) ==> st[k] == NotTasked
    ensures forall k, i :: k in st && LastOn(tasks, show, i, k) ==> st[k] == KeyStatus(tasks[i].key, render)
  {
    var idx := IndexTasks(tasks, show);
    var st := SdrStatuses(sdrs, idx, show, render);
    forall k, i | k in st && LastOn(tasks, show, i, k)
      ensures st[k] == KeyStatus(tasks[i].key, render)
    {
      IndexHoldsLast(tasks, show, i, k);
    }
    st
  }

  /**
    Every status is exactly one of the three forms, and "Not Tasked" is
    reported exactly when no task runs on the device.
  */
  lemma StatusForms<D>(sdrs: seq<D>, tasks: seq<Task<D>>, show: D -> string, render: real -> string, k: string)
    requires k in TaskList(sdrs, tasks, show, render)
    ensures var s := TaskList(sdrs, tasks, show, render)[k];
      s == NotTasked || s == Scanning || s == DecodingUnknown
      || exists mhz :: s == Decoding(mhz)
    ensures var s := TaskList(sdrs, tasks, show, render)[k];
      s == NotTasked <==> !Tasked(tasks, show, k)
  {
    var st := TaskList(sdrs, tasks, show, render);
    var idx := IndexTasks(tasks, show);
    assert st[k] == Classify(idx, k, render);
    if k in idx {
      match idx[k]
      case Named(name) =>
      case Frequency(hz) =>
        assert Decoding(render(hz / 1000000.0))[0] == 'D';
    }
  }
}
