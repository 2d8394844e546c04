/**
 The static session catalog (app/page.tsx:5-21): the `Session` record and the
 fixed, ordered list of sessions the picker offers.
 */
module Catalog {

  /** The session's `type` field; `type` is a keyword in Dafny, hence `kind`. */
  datatype SessionType = Meditation | Breathing | Sleep

  /** A catalog entry. `duration` is in minutes. */
  datatype Session = Session(
    id: string,
    title: string,
    duration: int,
    kind: SessionType,
    color: string,
    icon: string)

  const Sessions: seq<Session> := [
    Session("1", "Morning Peace", 10, Meditation, "from-orange-400 to-pink-500", "\U{1F305}"),
    Session("2", "Deep Breathing", 5, Breathing, "from-blue-400 to-teal-500", "\U{1F4A8}"),
    Session("3", "Stress Relief", 15, Meditation, "from-purple-400 to-pink-500", "\U{1F9D8}\U{200D}\U{2640}\U{FE0F}"),
    Session("4", "Sleep Sounds", 20, Sleep, "from-indigo-500 to-purple-600", "\U{1F319}"),
    Session("5", "Focus Flow", 12, Meditation, "from-teal-400 to-blue-500", "\U{1F3AF}"),
    Session("6", "Box Breathing", 8, Breathing, "from-cyan-400 to-blue-500", "\U{2B1C}")
  ]

  /** No two entries of `c` share an id (the picker uses the id as the list key). */
  ghost predicate UniqueIds(c: seq<Session>) {
    forall i, j :: 0 <= i < j < |c| ==> c[i].id != c[j].id
  }

  /** Every entry of `c` lasts a positive number of minutes. */
  ghost predicate PositiveDurations(c: seq<Session>) {
    forall i :: 0 <= i < |c| ==> c[i].duration > 0
  }

  /** A decision procedure for `UniqueIds`: each entry's id is absent from the rest of the list. */
  function DistinctIds(c: seq<Session>): (b: bool)
    ensures b <==> UniqueIds(c)
    decreases |c|
  {
    if |c| == 0 then true
    else
      var rest := DistinctIds(c[1..]);
      assert UniqueIds(c) ==> UniqueIds(c[1..]) by {
        if UniqueIds(c) {
          forall i, j | 0 <= i < j < |c[1..]| ensures c[1..][i].id != c[1..][j].id {
            assert c[1..][i] == c[i + 1] && c[1..][j] == c[j + 1];
          }
        }
      }
      assert (forall k :: 1 <= k < |c| ==> c[k].id != c[0].id) && UniqueIds(c[1..]) ==> UniqueIds(c) by {
        if (forall k :: 1 <= k < |c| ==> c[k].id != c[0].id) && UniqueIds(c[1..]) {
          forall i, j | 0 <= i < j < |c| ensures c[i].id != c[j].id {
            if i > 0 {
              assert c[i] == c[1..][i - 1] && c[j] == c[1..][j - 1];
            }
          }
        }
      }
      (forall k :: 1 <= k < |c| ==> c[k].id != c[0].id) && rest
  }

  /** The catalog's invariants: ids are pairwise distinct and every duration is positive. */
  lemma CatalogWellFormed()
    ensures UniqueIds(Sessions)
    ensures PositiveDurations(Sessions)
    ensures DistinctIds(Sessions)
  {
    var ids := ["1", "2", "3", "4", "5", "6"];
    assert forall i :: 0 <= i < |Sessions| ==> Sessions[i].id == ids[i];
  }

}
