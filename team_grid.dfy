/**
 * The team grid (components/team/team-grid.tsx): members whose `isActive` is
 * not `false` are shown as cards numbered by their position among the shown
 * members; when none is left, a "No Team Members Found" message replaces the grid.
 */
module TeamGrid {
  import opened Wrappers

  datatype Department = Engineering | Design | Research | Management | Marketing

  datatype SocialLinks = SocialLinks(twitter: Option<string>, linkedin: Option<string>,
                                     github: Option<string>, website: Option<string>)

  /** A team member (types/team.ts); an absent `isActive` is `None`. */
  datatype TeamMember = TeamMember(id: string, name: string, role: string, department: Department,
                                   bio: string, imageUrl: string, isActive: Option<bool>,
                                   socialLinks: Option<SocialLinks>)

  /** `member.isActive !== false`: an absent flag counts as active. */
  predicate IsShown(m: TeamMember)
  {
    m.isActive != Some(false)
  }

  /** `members.filter(member => member.isActive !== false)`. */
  function ActiveMembers(members: seq<TeamMember>): (r: seq<TeamMember>)
    ensures |r| <= |members|
    ensures forall m :: m in r <==> m in members && IsShown(m)
  {
    if members == [] then []
    else (if IsShown(members[0]) then [members[0]] else []) + ActiveMembers(members[1..])
  }

  /** The positions, in `members`, of the members that are shown, in increasing order. */
  function ShownPositions(members: seq<TeamMember>): (idx: seq<nat>)
    ensures forall i | 0 <= i < |idx| :: idx[i] < |members| && IsShown(members[idx[i]])
    ensures forall i, j | 0 <= i < j < |idx| :: idx[i] < idx[j]
    ensures forall j | 0 <= j < |members| && IsShown(members[j]) :: j in idx
  {
    if members == [] then []
    else
      var n := |members| - 1;
      ShownPositions(members[..n]) + (if IsShown(members[n]) then [n] else [])
  }

  lemma {:induction false} ActiveMembersSnoc(members: seq<TeamMember>, m: TeamMember)
    ensures ActiveMembers(members + [m]) == ActiveMembers(members) + (if IsShown(m) then [m] else [])
    decreases |members|
  {
    if members != [] {
      assert (members + [m])[1..] == members[1..] + [m];
      ActiveMembersSnoc(members[1..], m);
    } else {
      assert ActiveMembers([m]) == (if IsShown(m) then [m] else []) + ActiveMembers([]);
    }
  }

  /** `r` is the subsequence of `s` at the positions `idx`. */
  predicate Picks<T(==)>(r: seq<T>, s: seq<T>, idx: seq<nat>)
  {
    |r| == |idx| && forall i | 0 <= i < |idx| :: idx[i] < |s| && r[i] == s[idx[i]]
  }

  lemma PicksSnoc<T>(r: seq<T>, s: seq<T>, idx: seq<nat>, x: T, keep: bool)
    requires Picks(r, s, idx)
    ensures Picks(r + (if keep then [x] else []), s + [x], idx + (if keep then [|s|] else []))
  {
    var r', s', idx' := r + (if keep then [x] else []), s + [x], idx + (if keep then [|s|] else []);
    forall i | 0 <= i < |idx'|
      ensures idx'[i] < |s'| && r'[i] == s'[idx'[i]]
    {
      if i < |idx| {
        assert r'[i] == r[i] && idx'[i] == idx[i] && s'[idx[i]] == s[idx[i]];
      }
    }
  }

  /**
   * The filter keeps order: its i-th member is the member at the i-th shown
   * position of the input, so the result is the subsequence of shown members.
   */
  lemma {:induction false} ActiveMembersArePositions(members: seq<TeamMember>)
    ensures Picks(ActiveMembers(members), members, ShownPositions(members))
    decreases |members|
  {
    if members != [] {
      var n := |members| - 1;
      var front, m := members[..n], members[n];
      assert members == front + [m];
      ActiveMembersArePositions(front);
      ActiveMembersSnoc(front, m);
      PicksSnoc(ActiveMembers(front), front, ShownPositions(front), m, IsShown(m));
    }
  }

  /** A list whose members are all shown passes the filter unchanged. */
  lemma {:induction false} ActiveMembersKeepsAllShown(members: seq<TeamMember>)
    requires forall i | 0 <= i < |members| :: IsShown(members[i])
    ensures ActiveMembers(members) == members
    decreases |members|
  {
    if members != [] {
      ActiveMembersKeepsAllShown(members[1..]);
      assert [members[0]] + members[1..] == members;
    }
  }

  /** Filtering twice gives what filtering once gives. */
  lemma ActiveMembersIdempotent(members: seq<TeamMember>)
    ensures ActiveMembers(ActiveMembers(members)) == ActiveMembers(members)
  {
    var r := ActiveMembers(members);
    assert forall i | 0 <= i < |r| :: r[i] in r;
    ActiveMembersKeepsAllShown(r);
  }

  /** A card: the member and its `index` prop. */
  datatype Card = Card(member: TeamMember, index: nat)

  /** What `TeamGrid` renders. */
  datatype GridView = NoMembersFound | Grid(cards: seq<Card>)

  function RenderGrid(members: seq<TeamMember>): (v: GridView)
    ensures v.NoMembersFound? <==> forall m | m in members :: !IsShown(m)
    ensures v.Grid? ==> |v.cards| == |ActiveMembers(members)| > 0
    ensures v.Grid? ==> forall i | 0 <= i < |v.cards| :: v.cards[i] == Card(ActiveMembers(members)[i], i)
  {
    var active := ActiveMembers(members);
    if |active| == 0 then NoMembersFound
    else
      assert active[0] in members;
      Grid(seq(|active|, i requires 0 <= i < |active| => Card(active[i], i)))
  }

  /**
   * Each card's `index` is its position among the shown members, not in the
   * input: the i-th card shows the member at the i-th shown position, which is
   * at least i, and later by the number of hidden members before it.
   */
  lemma CardIndexIsFilteredPosition(members: seq<TeamMember>, i: nat)
    requires RenderGrid(members).Grid? && i < |RenderGrid(members).cards|
    ensures i < |ShownPositions(members)|
    ensures var card := RenderGrid(members).cards[i];
            && card.index == i
            && card.member == members[ShownPositions(members)[i]]
            && i <= ShownPositions(members)[i]
  {
    ActiveMembersArePositions(members);
    PositionsAtLeastRank(ShownPositions(members), i);
  }

  lemma {:induction false} PositionsAtLeastRank(idx: seq<nat>, i: nat)
    requires i < |idx|
    requires forall a, b | 0 <= a < b < |idx| :: idx[a] < idx[b]
    ensures i <= idx[i]
  {
    if i > 0 {
      PositionsAtLeastRank(idx, i - 1);
      assert idx[i - 1] < idx[i];
    }
  }
}
