/** The command line of `find_path.py`: `find_path.py <algorithm> <map> <origin>
    <destination> [<heuristics>]`, with both files already read into lines. */
module Dispatch {
  import opened Wrappers
  import opened Graph
  import opened Search
  import FindPath

  /** One line of the heuristic file: the `END` marker, or `location value` already
      split at the space, with the value as `int()` reads it. */
  datatype Estimate = EstimatesEnd | Estimate(at: Node, h: int)

  /** The heuristic loading loop from `h`: stop at the first `END`, a later line for a
      location overwriting an earlier one. */
  function LoadEstimatesFrom(h: map<Node, int>, lines: seq<Estimate>): map<Node, int>
    decreases |lines|
  {
    if lines == [] then h
    else match lines[0]
      case EstimatesEnd => h
      case Estimate(v, x) => LoadEstimatesFrom(h[v := x], lines[1..])
  }

  function LoadEstimates(lines: seq<Estimate>): map<Node, int> {
    LoadEstimatesFrom(map[], lines)
  }

  /** The heuristic lines before the first `END`. */
  function EstimatesBeforeEnd(lines: seq<Estimate>): (pre: seq<Estimate>)
    ensures |pre| <= |lines| && pre == lines[..|pre|] && EstimatesEnd !in pre
    ensures |pre| < |lines| ==> lines[|pre|] == EstimatesEnd
  {
    if lines == [] || lines[0] == EstimatesEnd then []
    else [lines[0]] + EstimatesBeforeEnd(lines[1..])
  }

  /** The value of the last line naming `v`, if any. */
  function LastEstimate(lines: seq<Estimate>, v: Node): Option<int> {
    if lines == [] then None
    else
      var last := lines[|lines| - 1];
      if last.Estimate? && last.at == v then Some(last.h)
      else LastEstimate(lines[..|lines| - 1], v)
  }

  /** The heuristic stored for `v`, if any. */
  function EstimateOf(h: map<Node, int>, v: Node): Option<int> {
    if v in h then Some(h[v]) else None
  }

  ghost predicate EstimatesBuilt(h: map<Node, int>, done: seq<Estimate>) {
    forall v :: EstimateOf(h, v) == LastEstimate(done, v)
  }

  lemma {:induction false} LoadEstimatesFromBuilt(h: map<Node, int>, done: seq<Estimate>, lines: seq<Estimate>)
    requires EstimatesBuilt(h, done)
    ensures EstimatesBuilt(LoadEstimatesFrom(h, lines), done + EstimatesBeforeEnd(lines))
    decreases |lines|
  {
    if lines != [] && lines[0] != EstimatesEnd {
      var l := lines[0];
      var done' := done + [l];
      forall v
        ensures EstimateOf(h[l.at := l.h], v) == LastEstimate(done', v)
      {
        assert done'[..|done'| - 1] == done;
      }
      LoadEstimatesFromBuilt(h[l.at := l.h], done', lines[1..]);
      assert done' + EstimatesBeforeEnd(lines[1..]) == done + EstimatesBeforeEnd(lines);
    } else {
      assert done + EstimatesBeforeEnd(lines) == done;
    }
  }

  /** Loading the heuristic file reads exactly the lines before the first `END`: a
      location has a heuristic when such a line names it, namely the last one's value. */
  lemma LoadEstimatesIsLast(lines: seq<Estimate>)
    ensures forall v :: EstimateOf(LoadEstimates(lines), v) == LastEstimate(EstimatesBeforeEnd(lines), v)
  {
    LoadEstimatesFromBuilt(map[], [], lines);
    assert [] + EstimatesBeforeEnd(lines) == EstimatesBeforeEnd(lines);
  }

  /** The heuristics in force: the heuristic file is read only when a sixth argument
      names it. */
  function Heuristics(argv: seq<string>, estimates: seq<Estimate>): map<Node, int> {
    if |argv| > 5 then LoadEstimates(estimates) else map[]
  }

  /** What the program prints, as a value. */
  datatype Report =
    | NoMapArgument                                   // `sys.argv[2]` raises before any output
    | WrongArgumentCount                              // "wrong number of argument"
    | NotInMap(origin: bool, destination: bool)       // which of the two "not in map" lines
    | Unsupported                                     // "unsupported search algorithm"
    | NoRoute                                         // "distance: infinity", path "none"
    | Route(path: seq<Node>, miles: int)              // `print_path`: total and legs
    | MissingHeuristic(at: Node)                      // `a_star` stops on a missing key

  const Algorithms: set<string> := {"ucs", "bfs", "dfs", "astar"}

  /** The program's top level: the map file is opened from `argv[2]` before anything
      else, so without that argument the program stops with an index error; then the
      argument count, then both locations in the map, then the algorithm by name; a
      found path is printed with its total in miles. */
  method Answer(argv: seq<string>, lines: seq<Line>, estimates: seq<Estimate>) returns (r: Report)
    ensures r == NoMapArgument <==> |argv| < 3
    ensures r == WrongArgumentCount <==> 3 <= |argv| < 5
    ensures r.NotInMap? <==> |argv| >= 5 && (argv[3] !in Load(lines).adj || argv[4] !in Load(lines).adj)
    ensures r.NotInMap? ==> r.origin == (argv[3] !in Load(lines).adj) && r.destination == (argv[4] !in Load(lines).adj)
    ensures r == Unsupported <==>
      |argv| >= 5 && argv[3] in Load(lines).adj && argv[4] in Load(lines).adj && argv[1] !in Algorithms
    ensures r.Route? ==> IsWalkBetween(Load(lines), r.path, argv[3], argv[4]) && NoRepeats(r.path)
    ensures r.Route? ==> r.miles == PathCost(Load(lines), r.path)
    ensures r == NoRoute ==> !Reachable(Load(lines), argv[3], argv[4])
    ensures |argv| >= 5 && argv[3] in Load(lines).adj && argv[4] in Load(lines).adj && argv[1] in {"ucs", "bfs", "dfs"} ==>
      (r.Route? <==> Reachable(Load(lines), argv[3], argv[4])) && (r.Route? || r == NoRoute)
    ensures |argv| >= 5 && argv[3] in Load(lines).adj && argv[4] in Load(lines).adj && argv[1] == "astar"
              && !r.MissingHeuristic? ==>
      (r.Route? <==> Reachable(Load(lines), argv[3], argv[4])) && (r.Route? || r == NoRoute)
    ensures r.Route? && argv[1] == "bfs" ==>
      forall w :: IsWalkBetween(Load(lines), w, argv[3], argv[4]) ==> |r.path| <= |w|
    ensures r.Route? && argv[1] == "ucs" && NonNegativeLegs(Load(lines), Miles) ==>
      forall w :: IsWalkBetween(Load(lines), w, argv[3], argv[4]) ==> r.miles <= PathCost(Load(lines), w)
    ensures r.MissingHeuristic? ==> |argv| >= 5 && argv[1] == "astar"
    ensures r.MissingHeuristic? ==> r.at in Load(lines).adj && r.at !in Heuristics(argv, estimates)
    ensures Load(lines).adj.Keys <= Heuristics(argv, estimates).Keys ==> !r.MissingHeuristic?
  {
    var g := Load(lines);
    LoadClosedSymmetric(lines);
    var h := Heuristics(argv, estimates);
    if |argv| < 3 {
      return NoMapArgument;
    }
    if |argv| < 5 {
      return WrongArgumentCount;
    }
    var o, t := argv[3], argv[4];
    if !(o in g.adj && t in g.adj) {
      return NotInMap(o !in g.adj, t !in g.adj);
    }
    var solution: Option<seq<Node>>;
    if argv[1] == "ucs" {
      solution := FindPath.Ucs(g, o, t);
    } else if argv[1] == "bfs" {
      solution := FindPath.Bfs(g, o, t);
    } else if argv[1] == "dfs" {
      solution := FindPath.Dfs(g, o, t);
    } else if argv[1] == "astar" {
      var missing;
      solution, missing := FindPath.AStar(g, h, o, t);
      if missing.Some? {
        return MissingHeuristic(missing.value);
      }
    } else {
      return Unsupported;
    }
    if solution.Some? {
      return Route(solution.value, PathCost(g, solution.value));
    }
    return NoRoute;
  }
}
