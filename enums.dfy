/** The two enumerations declared at the top of main.cpp. */
module Enums {

  /** Which way a sprite faces; LEFT mirrors the frame when it is drawn. */
  datatype Direction = Left | Right

  /** What an actor is doing; each state may be mapped to one animation clip. */
  datatype State = Idle | Walking | Running | Shooting | Dead

  /** The enumerator's value, which is the order a std::map<State, _> keeps its keys in. */
  function Rank(s: State): nat
  {
    match s
    case Idle => 0
    case Walking => 1
    case Running => 2
    case Shooting => 3
    case Dead => 4
  }
}
