/** The game's vocabulary: teams, card types and the fixed constants of a board. */
module Cards {

  const MinimumPlayersPerTeam: nat := 2
  const RevealedCardToken: string := "#####"
  const BoardSize: nat := 5
  const TeamCardCount: nat := 8
  const BystanderCardCount: nat := 7
  const AssassinCardCount: nat := 1
  /** Cells on a board: 5 x 5. */
  const CellCount: nat := 25

  datatype CardType = RedCard | BlueCard | Bystander | Assassin {

    /** True for the two card types that belong to a team. */
    predicate IsTeamCard() {
      RedCard? || BlueCard?
    }

    /** The team owning a team card; Python's `CardType.team()` raises for the others. */
    function Owner(): (t: Team)
      requires IsTeamCard()
      ensures t.Card() == this
    {
      if RedCard? then Red else Blue
    }
  }

  datatype Team = Red | Blue {

    /** The opposing team, used when switching turns. */
    function Other(): (t: Team)
      ensures t != this
    {
      if Red? then Blue else Red
    }

    /** The card type that belongs to this team. */
    function Card(): (c: CardType)
      ensures c.IsTeamCard()
    {
      if Red? then RedCard else BlueCard
    }
  }

  /** A team's card type is owned by that team again. */
  lemma CardOwner(t: Team)
    ensures t.Card().Owner() == t
  {
  }
}
