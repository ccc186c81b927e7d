/** Game configuration records (backend/src/model/configs.rs). The play, time
    and score sections are empty structs in the source and carry no data here. */
module Configs {
  import opened Base

  datatype BasicConfigurations = BasicConfigurations(maxPlayerCount: U8, deckSize: U8)

  datatype GameConfigurations = GameConfigurations(basicConfigs: BasicConfigurations)

  /** `GameConfigurations::default`: six players, four decks. */
  function DefaultGameConfigurations(): (c: GameConfigurations)
    ensures c.basicConfigs.maxPlayerCount == 6
    ensures c.basicConfigs.deckSize == 4
  {
    GameConfigurations(BasicConfigurations(6, 4))
  }
}
