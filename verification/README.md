# DuckPools: verified models

A Dafny project that models the parts of DuckPools in which a mistake would be hard to see by
reading one function, and proves what they promise.

- **WebSocket connection manager.** `WsRegistry.dfy` holds the manager's six fields as one value
  and what each lock section does to them. `WsManager.dfy` is the class, loop by loop, proved
  against it. `WsProtocol.dfy` lets the route handlers of any number of clients interleave with
  broadcasts (snapshot, sends, late cleanup) and proves what every reachable state keeps;
  `WsHandlers.dfy` says what each event does to its client, and
  `WsClients.dfy` follows whole visits and what bad ones add up to.
- **Liquidity pool.** `PoolMath.dfy` (share arithmetic), `DecimalPath.dfy` (the backend's 50-digit
  decimals against the SDK's integers), `PoolLifecycle.dfy` (deposits, requests that freeze an
  amount, executions, cancellations, profits), `PoolSteps.dfy` (its steps in
  numbers and the balance of a run), `PoolScript.dfy` (the two on-chain guards),
  `PoolRoutes.dfy` (the transactions the routes build, against those guards).
- **Register codec.** `Bits.dfy`, `Vlq.dfy`, `IntCodec.dfy`, `CollByte.dfy`, `SValueCodec.dfy` and
  `Reveal.dfy`: four encoders and five decoders in unbounded, 64-bit and wrapped 32-bit
  arithmetic, the recursive register codec, and the coinflip reveal that depends on it.
- **Transaction balancing.** `TransactionBuilder.dfy`.
- **Smaller loops.** `Oracle.dfy` (failover), `Streaks.dfy`, `AmountFormat.dfy`.

`Wrappers.dfy` and `Arithmetic.dfy` are shared. `dafny verify dfyconfig.toml` checks everything.

## Findings

Where the code and its own documentation differ, or a natural property fails, the model follows
the code, and a theorem says exactly when the property holds.

- `broadcast_global` is documented to reach all connected clients (backend/ws_manager.py:220); it
  reaches the connections that hold a subscription (lines 233-240; `WsProtocol.GlobalBroadcast`).
- The handler sends its confirmation (backend/ws_routes.py:249) before the `try` whose `finally`
  disconnects (line 346). The connection can be released afterwards exactly if that send succeeded
  (`WsClients.ConfirmationDecides`); two hundred failures close the server for ever
  (`WsClients.LeaksCloseServer`).
- A connection with an empty IP text is never taken out of the IP index
  (backend/ws_manager.py:154; `WsRegistry.DisconnectIpIff`, `WsProtocol.EmptyIpIff`); after five of
  them have come and gone no other is accepted (`WsClients.EmptyIpExhausted`).
- Subscribing an unknown connection changes one index and then fails
  (backend/ws_manager.py:132-133; `WsRegistry.SubscribeValidIff`); the handler never does it.
- A pair whose left part is an Option is split in the wrong place
  (sdk/src/serialization/index.ts:323-349, 354-383): it comes back only if its right part repeats
  the Option's value (`SValueCodec.PairIff`).
- One byte of data in the untagged Coll[Byte] form is lost by every decoder
  (frontend/src/services/coinflipService.ts:513-536, backend/vlq_serializer.py:298-304;
  `CollByte.DecodersReadUntaggedIff`).
- The withdrawal routes use the serialized text of R4 as the holder's script without decoding it
  (W/lp_routes.py:470, 489, 524, 538). So a cancellation is accepted only once the cooldown has
  passed, and then the tokens do not go to the holder (`PoolRoutes.CancelRouteAcceptedIff`).
- The routes build no pool box (W/lp_routes.py:329-344, 484-493): their payments count for nothing
  with the pool's guard, and a deposit's shares come out of the wallet's own tokens
  (`PoolRoutes.DepositRouteMintsNothing`, `PoolRoutes.ExecuteRouteAcceptedIff`).
- Read strictly, the withdrawal request's script (sdk/src/pool/BankrollPool.ts:161-167) rejects
  every spend that burns the tokens (`PoolScript.RequestTokensSurvive`); read on demand it does not
  (`PoolScript.ReadingsDifferIff`).
- The pool's guard takes the amount in the second token slot for the LP supply and never compares
  that slot's token (sdk/src/pool/BankrollPool.ts:46-53): any pool box accepts a deposit that takes
  its LP tokens out (`PoolScript.SlotCanBeSwapped`). The supply statements hold of the LP token
  while every continuing output keeps it in the slot (`PoolScript.LpChange`,
  `PoolScript.LpNeedsHolders`, `PoolScript.LpIdSurvivesIff`).
- A withdrawal is documented to need a WithdrawRequest box past its cooldown
  (sdk/src/pool/BankrollPool.ts:68-70); the guard (lines 76-84) does not look at that box's script,
  so one LP token under any script opens it at once (`PoolScript.CooldownBypassed`). A request is
  always spent exactly if each opening input is under the request's script
  (`PoolScript.RequestSpentIff`).
- The backend's 50-digit decimals (W/pool_manager.py:33) fall short of integer division
  exactly where `DecimalPath.MulDivExactIff` says; never for amounts a Long can hold.
- A pool with value and no shares is reachable (W/lp_routes.py:481-482), and the next depositor
  gains the leftover (W/pool_manager.py:162-163; `PoolSteps.LeftoverReachable`,
  `PoolMath.ProfitIff`); a worthless pool with shares dilutes the depositor
  (`PoolMath.DepositThenWithdraw`) and rewards splitting (`PoolMath.SplitDepositNeverGainsIff`).
- A transaction builder that absorbs dust charges it again on every later build
  (sdk/src/transaction/TransactionBuilder.ts:106; exactly when: `TransactionBuilder.AbsorbsIff`)
  and may refuse what it accepted before (`TransactionBuilder.DriftRefusesIff`). A change address
  is demanded even for dust (line 92).
- An oracle answer of JSON null ends the rotation (W/oracle_service.py:202-207), so a call can
  return nothing although its endpoint answered (`Oracle.NullAnswerEnds`); `Oracle.DataIff` says
  when data comes back.
- The player statistics compute both longest streaks (backend/game_routes.py:246-263) and return the
  zeros of lines 230-231 instead (lines 288-289). That is right exactly for a player without a won,
  respectively lost, bet (`Streaks.PlayerStreaks`, `Streaks.OneWinMisreported`).
- The decimal printers are exact up to 22 decimals and no further
  (sdk/src/serialization/index.ts:440; `AmountFormat.ExactIff`).

Here W stands for worktrees/agent-devops-engineer-jr-MAT-157-docker-setup/backend.

## Model

| member | source | states |
|---|---|---|
| `WsManager.ConnectionManager.constructor` | backend/ws_manager.py:52-64 | a new manager is the empty, consistent registry |
| `WsManager.ConnectionManager.Connect` | backend/ws_manager.py:66-100 | refuses at 200 connections or 5 per IP and then changes nothing; otherwise gives out the next id, never used before; subscriptions stay consistent and exact IP indexes stay exact |
| `WsManager.ConnectionManager.Subscribe` | backend/ws_manager.py:102-134 | the caps in the source's order, lower-cased address; a success puts the pair in both indexes, a refusal changes nothing; the registry stays consistent exactly if the call does not end in the KeyError of an unknown connection, which is added under the address before that |
| `WsManager.ConnectionManager.Unsubscribe` | backend/ws_manager.py:136-148 | both indexes lose the pair, no empty set stays behind, all else unchanged |
| `WsManager.ConnectionManager.Disconnect` | backend/ws_manager.py:150-170 | the connection leaves every index, loop by loop; the registry stays consistent, and exact IP indexes stay exact precisely if the connection is unknown or its IP text is not empty |
| `WsManager.ConnectionManager.SetOwner` | backend/ws_manager.py:172-178 | records the lower-cased owner, changes no other; the registry stays consistent exactly if the connection is known |
| `WsManager.ConnectionManager.SnapshotAddress` | backend/ws_manager.py:192-193 | lists each subscriber of the address once |
| `WsManager.ConnectionManager.SnapshotGlobal` | backend/ws_manager.py:233-240 | lists one pair for each connection that holds a subscription, none for the others |
| `WsManager.ConnectionManager.SendAll` | backend/ws_manager.py:195-200 | the count returned is the number of successful sends, the dead list holds exactly the failed targets in order, and the two add up |
| `WsManager.ConnectionManager.CleanAddress` | backend/ws_manager.py:202-210 | the late lock section keeps the registry consistent whatever happened since the snapshot |
| `WsManager.ConnectionManager.CleanGlobal` | backend/ws_manager.py:250-258 | the same for the nested loops over failed connections and addresses |
| `WsManager.ConnectionManager.SubscriptionsCount` | backend/ws_manager.py:270-273 | the sum over addresses is the number of (connection, address) pairs |
| `WsManager.ConnectionManager.ActiveConnections` | backend/ws_manager.py:265-268 | the number of connections, which is the number of ids all IP sets hold together if the IP indexes are exact |
| `WsRegistry.ConnectValid` | backend/ws_manager.py:77-97 | connecting keeps subscriptions and addresses inverse and all caps |
| `WsRegistry.ConnectIpExact` | backend/ws_manager.py:77-97 | and exact IP indexes exact |
| `WsRegistry.LowerMeaning` | backend/ws_manager.py:113-113 | lower-casing moves the capital ASCII letters by 32 and nothing else |
| `WsRegistry.ConnectOutcomeMeaning` | backend/ws_manager.py:77-91 | accepted exactly below 200 connections and 5 under the IP, with the refusal of the first limit reached |
| `WsRegistry.ConnectMeaning` | backend/ws_manager.py:93-97 | an accepted connection has the next id, no address, its IP, one more place under that IP; nothing else changes |
| `WsRegistry.SubscribeOutcomeMeaning` | backend/ws_manager.py:114-133 | which of full address (10), unknown connection, full connection (5) and success occurs, in that order |
| `WsRegistry.SubscribeMeaning` | backend/ws_manager.py:132-133 | a success adds its pair to both indexes and no other, a refusal changes nothing, an unknown connection gains the address entry only |
| `WsRegistry.UnsubscribeMeaning` | backend/ws_manager.py:136-148 | exactly the connection's pairs at the address leave both indexes |
| `WsRegistry.SetOwnerMeaning` | backend/ws_manager.py:172-178 | exactly one owner is recorded, in lower case |
| `WsRegistry.DeliveredMeaning` | backend/ws_manager.py:195-200 | the count is the number of sends that succeeded |
| `WsRegistry.SubscribeValidIff` | backend/ws_manager.py:112-133 | a subscription leaves the registry consistent exactly when the address is full or the connection is known |
| `WsRegistry.UnsubscribeValid` | backend/ws_manager.py:136-148 | unsubscribing keeps the registry consistent |
| `WsRegistry.UnsubscribeRemoves` | backend/ws_manager.py:136-148 | the pair is gone from both indexes and no other pair is touched |
| `WsRegistry.DisconnectValid` | backend/ws_manager.py:150-169 | a disconnection keeps subscriptions and addresses inverse and all caps |
| `WsRegistry.DisconnectIpIff` | backend/ws_manager.py:153-158 | it leaves the IP indexes exact precisely when the connection is unknown or its IP text is non-empty |
| `WsRegistry.DisconnectRemoves` | backend/ws_manager.py:150-169 | a disconnected id is in none of the five maps, but for the IP entry exactly when its IP text is empty |
| `WsRegistry.DisconnectFrame` | backend/ws_manager.py:150-169 | no other connection's addresses, IP or owner change |
| `WsRegistry.CleanAddressFrame` | backend/ws_manager.py:202-210 | exactly the failed connections lose exactly that address |
| `WsRegistry.CleanGlobalFrame` | backend/ws_manager.py:250-258 | failed connections lose every address, all others keep theirs, nothing else changes |
| `WsRegistry.GlobalSnapshotReach` | backend/ws_manager.py:218-240 | a global broadcast is for the connections with a subscription, once each (the documentation says all connected clients) |
| `WsRegistry.SubscriptionsCountedOnce` | backend/ws_manager.py:270-273 | the address index and the connection index count the same subscriptions |
| `WsRegistry.ConnectionsCountedByIp` | backend/ws_manager.py:265-268 | IP sets together hold each connection once |
| `WsRegistry.FailedMeaning` | backend/ws_manager.py:195-200 | successful plus failed sends are all the targets, and a target is in the failed list exactly if its send failed |
| `WsProtocol.NextValid` | backend/ws_manager.py:66-263 | every event, in any order, keeps subscriptions and addresses inverse and all caps, handlers and registry in step, and each connection on its own address only |
| `WsProtocol.RunValid` | backend/ws_manager.py:66-263 | the same over every interleaving of handlers with broadcasts split into snapshot, sends and cleanup |
| `WsProtocol.Reachable` | backend/ws_manager.py:46-133 | in every reachable state: at most 200 connections, 5 per IP, 10 per address, addresses contained in {owner}, the subscription counter the same from both indexes, and the connection counter equal to the IP sets exactly if no lost connection had an empty IP |
| `WsProtocol.IpExactIff` | backend/ws_manager.py:150-169 | the IP indexes are exact inverses, and count the connections, exactly when no connection that is gone had an empty IP text |
| `WsProtocol.EmptyIpBlocked` | backend/ws_manager.py:77-91 | after five connections with an empty IP text, in any later state no other is accepted with one |
| `WsProtocol.HandlersSubscribeLive` | backend/ws_routes.py:229-303 | the route handler never subscribes an unknown connection |
| `WsProtocol.RunKeepsIds` | backend/ws_manager.py:93-97 | an id keeps its socket, IP and owner for ever; a connection that is gone stays gone |
| `WsProtocol.GoneForEver` | backend/ws_manager.py:150-169 | a connection that is gone is in no index in any later state, whatever late cleanup names it, but for the IP index exactly if its IP was empty |
| `WsProtocol.EndedHandlerReleasedIff` | backend/ws_routes.py:238-349 | a handler that has ended has let go of its connection, unless it leaked it; then it stays registered in every later state |
| `WsClients.Arrives` | backend/ws_routes.py:199-249 | a client with a token for its path gets as far as the confirmation whenever the caps leave room |
| `WsClients.ConfirmationDecides` | backend/ws_routes.py:249-349 | after the confirmation send some later run releases the connection exactly if the send succeeded, because it lies outside the try/finally |
| `WsClients.LeaksReachable` | backend/ws_routes.py:249-254 | any number of connections up to 200 can be leaked, one failed confirmation each |
| `WsClients.LeaksBlock` | backend/ws_manager.py:77-81 | once 200 connections are leaked no client is accepted in any later state |
| `WsClients.LeaksCloseServer` | backend/ws_routes.py:226-254 | a concrete run of 200 failed confirmations after which nobody is ever accepted |
| `WsClients.EmptyIpExhausted` | backend/ws_manager.py:150-158 | a concrete run: five clients with an empty IP text come and go, nobody is connected, and no other with one is ever accepted |
| `WsProtocol.LateCleanupHarmless` | backend/ws_manager.py:202-258 | a cleanup, however late, leaves every connection whose own send did not fail exactly as it was |
| `WsProtocol.GlobalCleanupComplete` | backend/ws_manager.py:250-258 | after a global cleanup no failed connection is subscribed to any address |
| `WsProtocol.AddressCleanupComplete` | backend/ws_manager.py:202-210 | after the cleanup of one address no failed connection is subscribed to it |
| `WsProtocol.GlobalBroadcast` | backend/ws_manager.py:218-263 | a whole global broadcast with any events in between: targets are the subscribed connections once each, successes plus failures make up their number, failed ones end unsubscribed and the others untouched |
| `WsProtocol.EmptyIpIff` | backend/ws_routes.py:160-167 | when the client IP text is empty: a forwarded header with a blank first field, or an empty host |
| `WsHandlers.OpenMeaning` | backend/ws_routes.py:217-233 | a connection is accepted exactly if the stripped, lower-cased path is the token's subject and both limits leave room; otherwise nothing changes |
| `WsHandlers.FirstSubscribeMeaning` | backend/ws_routes.py:235-244 | the first subscription succeeds exactly if the address has fewer than 10 subscribers; then the connection is on its owner's address and in every snapshot of it |
| `WsHandlers.OwnAndConfirmMeaning` | backend/ws_routes.py:235-257 | the subject becomes the owner; a delivered confirmation starts serving with it tracked |
| `WsHandlers.SubscribeMessageMeaning` | backend/ws_routes.py:279-316 | a subscribe message counts exactly for the connection's own address of 20 characters or more with room; else nothing changes |
| `WsHandlers.UnsubscribeMessageMeaning` | backend/ws_routes.py:318-327 | exactly the connection's pair at the named address leaves both indexes |
| `WsHandlers.EmptyUnsubscribe` | backend/ws_routes.py:318-321 | an empty address does nothing |
| `WsHandlers.LeavingMeaning` | backend/ws_routes.py:346-349 | tracked addresses are given up one by one, then the connection is disconnected; a rejected one at once |
| `WsHandlers.SendMeaning` | backend/ws_manager.py:192-200 | a broadcast starts with its snapshot, each send records its result, an ended broadcast does nothing more |
| `WsHandlers.AddressSnapshotReach` | backend/ws_manager.py:184-193 | a broadcast to one address is for exactly the connections on it, once each |
| `WsHandlers.FirstFieldMeaning` | backend/ws_routes.py:160-167 | the field before the first comma |
| `WsHandlers.StripMeaning` | backend/ws_routes.py:160-167 | stripping takes exactly the spaces at both ends |
| `WsHandlers.ClientIpMeaning` | backend/ws_routes.py:160-167 | the stripped text before the first comma of a non-empty header, else the host, else a fixed word |
| `PoolMath.DepositSharesMeaning` | sdk/src/pool/BankrollPool.ts:264-274 | the most shares the deposit pays for, one for one without shares or value |
| `PoolMath.WithdrawErgMeaning` | sdk/src/pool/BankrollPool.ts:280-287 | the most ERG the shares are worth, none without shares |
| `PoolMath.SharesForErgMeaning` | worktrees/agent-devops-engineer-jr-MAT-157-docker-setup/backend/pool_manager.py:198-221 | the most shares worth no more than what is asked |
| `PoolMath.SdkPriceMeaning` | sdk/src/pool/BankrollPool.ts:251-258 | the price rounded down, the precision itself without shares |
| `PoolMath.EstimateWithdrawMeaning` | worktrees/agent-devops-engineer-jr-MAT-157-docker-setup/backend/pool_manager.py:451-470 | the largest amount the shares are worth that leaves the floor in the pool |
| `PoolMath.DepositKeepsPrice` | sdk/src/pool/BankrollPool.ts:264-274 | a deposit never lowers value per share |
| `PoolMath.WithdrawCovered` | sdk/src/pool/BankrollPool.ts:280-287 | the ERG for a burn is the largest amount the burned shares are worth, and never more than the pool |
| `PoolMath.PayoutKeepsPrice` | sdk/src/pool/BankrollPool.ts:280-287 | paying no more than the shares are worth never lowers value per share |
| `PoolMath.StillCovered` | worktrees/agent-devops-engineer-jr-MAT-157-docker-setup/backend/lp_routes.py:373-402 | a frozen amount stays covered while value per share does not fall |
| `PoolMath.DepositThenWithdraw` | worktrees/agent-devops-engineer-jr-MAT-157-docker-setup/backend/pool_manager.py:148-195 | deposit then withdrawal returns at most the deposit, and loses less than a share's price plus one nanoERG exactly when the pool was not worthless |
| `PoolMath.FirstDepositorTakesLeftover` | worktrees/agent-devops-engineer-jr-MAT-157-docker-setup/backend/pool_manager.py:148-195 | with no shares outstanding the first depositor withdraws the leftover value too |
| `PoolMath.ProfitIff` | worktrees/agent-devops-engineer-jr-MAT-157-docker-setup/backend/pool_manager.py:148-195 | depositing and withdrawing gains exactly when there are no shares and value is left |
| `PoolMath.EstimateForErgUncapped` | worktrees/agent-devops-engineer-jr-MAT-157-docker-setup/backend/pool_manager.py:451-495 | never exceeds the request; misses it by less than a share's price plus one nanoERG exactly when the pool is worth something; burns the most shares worth no more than the request and pays the most they are worth |
| `PoolMath.EstimateForErgCapped` | worktrees/agent-devops-engineer-jr-MAT-157-docker-setup/backend/pool_manager.py:451-495 | pays exactly what the floor allows and overpays the burned shares by less than one share |
| `PoolMath.SumConcat` | sdk/src/pool/BankrollPool.ts:264-287 | the sum of a list of parts is additive |
| `PoolMath.SumOne` | sdk/src/pool/BankrollPool.ts:264-287 | and that of one part is the part |
| `PoolMath.SplitDepositNeverGains` | sdk/src/pool/BankrollPool.ts:264-274 | any list of deposits mints at most what one deposit of the sum mints, in a pool with value or without shares |
| `PoolMath.SplitDepositNeverGainsIff` | sdk/src/pool/BankrollPool.ts:264-274 | that holds of all lists of deposits exactly when the pool has value or no shares |
| `PoolMath.SplitGainsWhenWorthless` | sdk/src/pool/BankrollPool.ts:264-274 | in a worthless pool two deposits of one nanoERG gain the whole supply |
| `PoolMath.BurnEachBounds` | sdk/src/pool/BankrollPool.ts:280-287 | any list of burns pays no more than the burned shares are worth, and less by at most one nanoERG a part |
| `PoolMath.SplitWithdrawalNeverGains` | sdk/src/pool/BankrollPool.ts:280-287 | splitting a withdrawal never returns more ERG, and loses at most one nanoERG a part |
| `DecimalPath.QuotientMeaning` | worktrees/agent-devops-engineer-jr-MAT-157-docker-setup/backend/pool_manager.py:33-34 | a quotient is the ratio rounded down to exactly 50 significant digits |
| `DecimalPath.ProductMeaning` | worktrees/agent-devops-engineer-jr-MAT-157-docker-setup/backend/pool_manager.py:33-34 | a product is exact below 10^50 and rounded like a quotient from there on |
| `DecimalPath.DropFractionMeaning` | worktrees/agent-devops-engineer-jr-MAT-157-docker-setup/backend/pool_manager.py:144-145 | the integral part of a decimal |
| `DecimalPath.MulDivExact` | worktrees/agent-devops-engineer-jr-MAT-157-docker-setup/backend/pool_manager.py:33-34 | 50 significant digits rounded down, fraction dropped, is integer division whenever the product is below 10^50 |
| `DecimalPath.MulDivNeverExceeds` | worktrees/agent-devops-engineer-jr-MAT-157-docker-setup/backend/pool_manager.py:148-195 | for products of any size it is never more than integer division |
| `DecimalPath.MulDivExactIff` | worktrees/agent-devops-engineer-jr-MAT-157-docker-setup/backend/pool_manager.py:148-195 | for all inputs: equal to integer division exactly when the product loses no more than the division's remainder and the quotient's digits beyond the fiftieth are zeros |
| `DecimalPath.SharesAgreeIff` | worktrees/agent-devops-engineer-jr-MAT-157-docker-setup/backend/pool_manager.py:148-171 | backend and SDK mint the same shares exactly without shares, without value, or under that condition |
| `DecimalPath.ErgAgreesIff` | worktrees/agent-devops-engineer-jr-MAT-157-docker-setup/backend/pool_manager.py:174-195 | the same for the ERG of a withdrawal |
| `DecimalPath.PricesAgreeIff` | worktrees/agent-devops-engineer-jr-MAT-157-docker-setup/backend/pool_manager.py:122-145 | the SDK's and the backend's price agree exactly without shares, or with value under that condition |
| `DecimalPath.SharesDiffer` | worktrees/agent-devops-engineer-jr-MAT-157-docker-setup/backend/pool_manager.py:148-171 | a concrete estimate that is one share short |
| `DecimalPath.LongAmountsAgree` | worktrees/agent-devops-engineer-jr-MAT-157-docker-setup/backend/pool_manager.py:148-195 | the four Decimal calculators are integer division for all amounts a Long can hold |
| `PoolLifecycle.AfterValid` | worktrees/agent-devops-engineer-jr-MAT-157-docker-setup/backend/lp_routes.py:301-555 | every step of the intended lifecycle keeps circulating plus locked tokens equal to supply and every pending request covered |
| `PoolSteps.DepositMeaning` | worktrees/agent-devops-engineer-jr-MAT-157-docker-setup/backend/lp_routes.py:314-327 | a deposit is taken exactly if positive, of the minimum, and worth a share; value grows by it and supply by the most shares it pays for |
| `PoolSteps.RequestMeaning` | worktrees/agent-devops-engineer-jr-MAT-157-docker-setup/backend/lp_routes.py:367-402 | a request is taken exactly for a positive number of held tokens; it freezes the largest amount they are worth that leaves the floor, with height and cooldown of now |
| `PoolSteps.ExecuteMeaning` | worktrees/agent-devops-engineer-jr-MAT-157-docker-setup/backend/lp_routes.py:462-482 | before its time refused with the blocks that remain, else the largest amount up to the frozen one that leaves the floor is paid and the tokens burned |
| `PoolSteps.OtherStepsMeaning` | worktrees/agent-devops-engineer-jr-MAT-157-docker-setup/backend/lp_routes.py:502-555 | unknown requests are refused; cancelling, collecting, updating and mining change their own fields |
| `PoolSteps.RequestPayment` | worktrees/agent-devops-engineer-jr-MAT-157-docker-setup/backend/lp_routes.py:353-482 | whatever happens in between, a request pays the largest amount up to the frozen one that leaves the floor |
| `PoolSteps.RunBalance` | worktrees/agent-devops-engineer-jr-MAT-157-docker-setup/backend/lp_routes.py:301-499 | over any run value is what it was plus deposits and profits minus payments |
| `PoolLifecycle.StepPriceIff` | worktrees/agent-devops-engineer-jr-MAT-157-docker-setup/backend/lp_routes.py:301-499 | value per share falls in a step exactly when a first deposit meets value left without shares |
| `PoolLifecycle.RunValid` | worktrees/agent-devops-engineer-jr-MAT-157-docker-setup/backend/lp_routes.py:301-555 | the invariant over every run |
| `PoolLifecycle.RunPrice` | worktrees/agent-devops-engineer-jr-MAT-157-docker-setup/backend/lp_routes.py:301-499 | while shares stay outstanding value per share never falls over a run, although requests freeze their amounts |
| `PoolLifecycle.ReachablePrice` | worktrees/agent-devops-engineer-jr-MAT-157-docker-setup/backend/lp_routes.py:301-499 | the same between any earlier and any later state of a run |
| `PoolLifecycle.RunFloor` | worktrees/agent-devops-engineer-jr-MAT-157-docker-setup/backend/lp_routes.py:472-482 | no run takes the pool below its floor or where it already was |
| `PoolLifecycle.RunFrozen` | worktrees/agent-devops-engineer-jr-MAT-157-docker-setup/backend/lp_routes.py:397-402 | a pending request never changes and, once it has left, never comes back |
| `PoolLifecycle.RequestLife` | worktrees/agent-devops-engineer-jr-MAT-157-docker-setup/backend/lp_routes.py:353-499 | a request executes only after the cooldown stamped on it, pays the frozen amount as far as the floor allows, burns its tokens, and never executes twice |
| `PoolLifecycle.CancelUndoesRequest` | sdk/src/pool/BankrollPool.ts:158-167 | the intended cancellation: request then cancel is the identity but for the used id |
| `PoolLifecycle.ExecutionFair` | worktrees/agent-devops-engineer-jr-MAT-157-docker-setup/backend/lp_routes.py:462-482 | an execution is affordable, keeps the floor and pays no more than the shares are worth now |
| `PoolLifecycle.ExecuteRefusedOnlyEarly` | worktrees/agent-devops-engineer-jr-MAT-157-docker-setup/backend/lp_routes.py:462-467 | a pending request is refused exactly while its cooldown runs |
| `PoolSteps.LeftoverReachable` | worktrees/agent-devops-engineer-jr-MAT-157-docker-setup/backend/lp_routes.py:472-482 | a pool with value and no shares is reachable through the cap |
| `PoolScript.PathsExclusive` | sdk/src/pool/BankrollPool.ts:45-110 | an accepted spend takes exactly one of the four paths |
| `PoolScript.AcceptedIff` | sdk/src/pool/BankrollPool.ts:45-109 | the whole guard as a table over the two differences, for the first continuing output: what is accepted as deposit, withdrawal, collection and update, and nothing else |
| `PoolScript.RejectedWithout` | sdk/src/pool/BankrollPool.ts:36-53 | a box lacking tokens or registers, or a spend without a continuing output, is rejected |
| `PoolScript.HouseSpendsIff` | sdk/src/pool/BankrollPool.ts:97-109 | a box recreated alone with more value, or with any registers, is accepted exactly if the house signs |
| `PoolScript.RequestAcceptedIff` | sdk/src/pool/BankrollPool.ts:158-169 | a request is spent exactly if some output has its token first in its amount, and the cooldown has passed or the first such output is under the script in R4 |
| `PoolScript.AcceptedChange` | sdk/src/pool/BankrollPool.ts:59-109 | what one accepted spend changes and on which path: registers by update, the amount in the second slot up by deposit and down by withdrawal, value down only by a withdrawal that leaves the minimum and has an input that opens one |
| `PoolScript.RunContinues` | sdk/src/pool/BankrollPool.ts:45-50 | NFT and script survive every run of accepted spends |
| `PoolScript.ParametersNeedUpdate` | sdk/src/pool/BankrollPool.ts:59-109 | runs without update keep R4 to R7 and never end below the minimum deposit unless they began there |
| `PoolScript.SlotNeedsHolders` | sdk/src/pool/BankrollPool.ts:59-109 | without withdrawals value and the amount in the second slot never fall, without deposits too that amount is unchanged |
| `PoolScript.LpChange` | sdk/src/pool/BankrollPool.ts:45-97 | with the LP token kept in the second slot, the LP tokens held rise exactly by deposit and fall exactly by withdrawal |
| `PoolScript.LpNeedsHolders` | sdk/src/pool/BankrollPool.ts:45-109 | over runs that keep the slot: without withdrawals no LP token leaves, without deposits too none arrives |
| `PoolScript.LpIdSurvivesIff` | sdk/src/pool/BankrollPool.ts:46-53 | the LP token is in the second slot in every state of a run exactly if every spend keeps it there, which the guard does not ask |
| `PoolScript.SlotCanBeSwapped` | sdk/src/pool/BankrollPool.ts:46-69 | for every pool box with distinct tokens there is an accepted deposit after which it holds no LP token |
| `PoolScript.OpensWithdrawalIff` | sdk/src/pool/BankrollPool.ts:76-94 | exactly the boxes with the LP token first and two past registers open a withdrawal down to the minimum deposit, under any script |
| `PoolScript.CooldownBypassed` | sdk/src/pool/BankrollPool.ts:68-84 | a box under any script, with one LP token and two zero registers, opens one at any height |
| `PoolScript.RequestSpentIff` | sdk/src/pool/BankrollPool.ts:68-84 | withdrawals with given inputs always spend a request past its cooldown exactly if each input that opens one is under the request's script |
| `PoolScript.EarlySpendReturnsTokens` | sdk/src/pool/BankrollPool.ts:129-170 | before the cooldown locked tokens only go back to their holder's script |
| `PoolScript.RequestTokensSurvive` | sdk/src/pool/BankrollPool.ts:158-169 | read strictly, no accepted spend of a request burns its tokens |
| `PoolScript.ReadingsDifferIff` | sdk/src/pool/BankrollPool.ts:158-169 | strict and on-demand evaluation of the request script differ exactly on mature spends in which no output holds the tokens |
| `PoolScript.ContinuedExecutionAcceptedIff` | sdk/src/pool/BankrollPool.ts:45-109 | a spend that carries the pool box over an execution passes the pool's guard exactly when it pays something and leaves the minimum deposit; the request's guard exactly when the payee holds the tokens |
| `PoolScript.ContinuedDepositAccepted` | sdk/src/pool/BankrollPool.ts:59-69 | a spend that carries the pool box to the state after an accepted deposit takes the deposit path |
| `PoolRoutes.RegistersCarryRequest` | worktrees/agent-devops-engineer-jr-MAT-157-docker-setup/backend/lp_routes.py:397-402 | amount, height and cooldown are read back; R4 decodes to the holder's tree, but what the routes read from it is not that tree |
| `PoolRoutes.DepositRouteMeaning` | worktrees/agent-devops-engineer-jr-MAT-157-docker-setup/backend/lp_routes.py:329-344 | the deposit and the most shares it pays for, to the depositor's own address, and no other token |
| `PoolRoutes.ExecuteRouteMeaning` | worktrees/agent-devops-engineer-jr-MAT-157-docker-setup/backend/lp_routes.py:462-493 | built exactly once the cooldown has passed: the largest amount up to the frozen one that leaves the floor, no token, to the text of R4 |
| `PoolRoutes.CancelRouteMeaning` | worktrees/agent-devops-engineer-jr-MAT-157-docker-setup/backend/lp_routes.py:522-549 | 0.001 ERG and exactly the locked tokens, to the text of R4 |
| `PoolRoutes.RequestBoxMeaning` | worktrees/agent-devops-engineer-jr-MAT-157-docker-setup/backend/lp_routes.py:397-416 | a tenth of the frozen amount, at least 0.001 ERG, the tokens and the four registers |
| `PoolRoutes.DepositRouteRefusesIff` | worktrees/agent-devops-engineer-jr-MAT-157-docker-setup/backend/lp_routes.py:317-327 | the deposit route refuses what the lifecycle refuses, with the same error |
| `PoolRoutes.PaymentIgnored` | sdk/src/pool/BankrollPool.ts:45-50 | a payment of at most one token counts for nothing with the pool's guard |
| `PoolRoutes.DepositRouteMintsNothing` | worktrees/agent-devops-engineer-jr-MAT-157-docker-setup/backend/lp_routes.py:329-344 | a deposit as built is none to the pool's guard, and its shares come out of the wallet's own tokens |
| `PoolRoutes.ExecuteRouteAcceptedIff` | worktrees/agent-devops-engineer-jr-MAT-157-docker-setup/backend/lp_routes.py:469-493 | an execution as built counts for nothing with the pool's guard, passes the request's guard exactly when a change output takes the tokens over, and pays to a script that is not the holder's |
| `PoolRoutes.CancelRouteAcceptedIff` | worktrees/agent-devops-engineer-jr-MAT-157-docker-setup/backend/lp_routes.py:522-549 | a cancellation as built is accepted exactly from the end of the cooldown on, and none of the tokens it pays go to the holder's tree |
| `PoolRoutes.DecodedCancelAccepted` | worktrees/agent-devops-engineer-jr-MAT-157-docker-setup/backend/lp_routes.py:522-549 | paid to what R4 decodes to, it is accepted at any height and the holder has the tokens |
| `Vlq.EncodeLoop` | sdk/src/serialization/index.ts:15-36 | the encoding loop computes the VLQ (backend, LP backend and frontend BigInt loops have the same form) |
| `Vlq.EncodeLoop32` | frontend/src/utils/sigmaSerializer.ts:2-12 | the 32-bit `>>>` loop writes the VLQ of the unsigned pattern |
| `Vlq.DecodeLoop` | sdk/src/serialization/index.ts:271-286 | the SDK's decoding loop, from any offset, reads the value and stops behind it |
| `Vlq.ScanLoop` | backend/vlq_serializer.py:108-137 | the backend's loop reads the same value (also `_extract_int_from_serialized` and the SDK pool manager's Long) |
| `Vlq.DecodeLoop32` | frontend/src/services/coinflipService.ts:542-556 | the 32-bit `or-assign`/`<<` loop, on any bytes, as a fold that drops high bits and wraps the shift |
| `Vlq.VlqBytes` | sdk/src/serialization/index.ts:15-36 | byte i carries the i-th base-128 digit, and its top bit exactly if more follow |
| `Vlq.VlqLength` | sdk/src/serialization/index.ts:15-36 | as many bytes as base-128 digits, at least one |
| `Vlq.DecodeVlqMeaning` | sdk/src/serialization/index.ts:271-286 | decoding any bytes reads up to the first without the top bit and gives what the groups stand for |
| `Vlq.VlqDelimited` | backend/vlq_serializer.py:80-137 | decoding an encoding followed by anything gives the number and exactly its length |
| `Vlq.VlqCanonical` | backend/vlq_serializer.py:80-137 | a terminated group sequence is the encoding of its value exactly if its last group is not a superfluous zero |
| `Vlq.Decode32IsLowWord` | sdk/src/pool/PoolManager.ts:222-243 | the 32-bit loop gives the low 32 bits of any VLQ of at most five bytes |
| `IntCodec.WireBytes` | sdk/src/serialization/index.ts:54-71 | tag 2 or 4, then the VLQ of 2v, or of -2v - 1 for a negative v |
| `IntCodec.RangeRefusals` | backend/vlq_serializer.py:139-222 | the backend refuses exactly the numbers outside 32, respectively 64 bits |
| `IntCodec.TagRefusals` | sdk/src/serialization/index.ts:209-241 | what each decoder makes of another tag: an error, a zero, or the frontend's blind reading |
| `IntCodec.IntEncodersAgree` | frontend/src/utils/sigmaSerializer.ts:28-39 | SDK, frontend, LP backend and backend write the same bytes for every 32-bit integer |
| `IntCodec.IntDecodersInvert` | sdk/src/serialization/index.ts:209-224 | all five Int decoders recover it, whatever follows |
| `IntCodec.LongEncodersAgree` | frontend/src/utils/sigmaSerializer.ts:15-48 | all four Long encoders agree on every 64-bit integer |
| `IntCodec.LongDecodersInvert` | sdk/src/serialization/index.ts:229-241 | all Long decoders recover it, whatever follows |
| `IntCodec.SdkIntReadsLowWord` | sdk/src/serialization/index.ts:54-59 | the SDK reads back the low word of any number: a round trip exactly for 32-bit integers |
| `IntCodec.SdkLongRoundTripIff` | sdk/src/serialization/index.ts:65-71 | the unchecked SDK Long round-trips exactly the 64-bit integers |
| `IntCodec.WideUndoneIff` | backend/vlq_serializer.py:60-78 | a ZigZag with unbounded shifts is undone exactly when the bits above the sign position are all equal |
| `CollByte.FrontendDecodeLoop` | frontend/src/services/coinflipService.ts:513-536 | the frontend's loop computes the clamped 32-bit reading on any bytes |
| `CollByte.ScanLength` | backend/vlq_serializer.py:306-316 | the scan for the end of the length stops where the length's VLQ ends |
| `CollByte.BackendDeserializeScan` | backend/vlq_serializer.py:281-330 | the backend's loop and strict length check compute its specification |
| `CollByte.SdkReadsTagged` | sdk/src/serialization/index.ts:246-266 | the tagged form is self-delimiting |
| `CollByte.DecodersReadTagged` | sdk/src/serialization/index.ts:83-101 | SDK and backend recover the tagged form for every length, the frontend for every length below 2^31 |
| `CollByte.DecodersReadUntaggedIff` | backend/vlq_serializer.py:249-279 | every decoder recovers the untagged form exactly when the length is not 1, the frontend below 2^31 |
| `CollByte.OneByteLost` | frontend/src/services/coinflipService.ts:513-536 | what each decoder makes of one untagged byte: nothing, and the backend refuses unless the low seven bits are zero |
| `CollByte.BackendRoundTrip` | backend/vlq_serializer.py:382-443 | the backend refuses exactly values outside its types, and its dispatch reads back all it writes |
| `CollByte.WireForms` | backend/vlq_serializer.py:249-380 | the two collection forms and the SigmaProp in bytes |
| `CollByte.CollRefusals` | backend/vlq_serializer.py:281-330 | refusals of SDK and backend by tag; what the backend reads, the SDK reads |
| `CollByte.DispatchRefusals` | backend/vlq_serializer.py:415-443 | the dispatch refuses exactly what has no known tag, and a SigmaProp of the wrong length |
| `CollByte.SigmaPropRefusals` | backend/vlq_serializer.py:332-380 | a SigmaProp is read exactly from its two tag bytes and 33 more; the error of each other case |
| `CollByte.LengthDisagrees` | sdk/src/serialization/index.ts:246-266 | a length that disagrees with the data: SDK and frontend give what there is up to it, the backend refuses |
| `SValueCodec.SimpleRead` | sdk/src/serialization/index.ts:354-383 | for Int, Long, Coll[Byte] and Boolean the computed length is the encoded length, and the value is read off the front exactly if in range |
| `SValueCodec.DelimitedIff` | sdk/src/serialization/index.ts:388-414 | exactly the delimited values come back when more bytes follow |
| `SValueCodec.PairIff` | sdk/src/serialization/index.ts:323-349 | when a pair comes back: left part simple and in range, or an Option whose value the right part repeats |
| `SValueCodec.RoundTripIff` | sdk/src/serialization/index.ts:170-190 | the recursive codec gives a value back exactly when a condition on its shape holds, for all values |
| `SValueCodec.NestedRoundTrips` | sdk/src/serialization/index.ts:139-190 | options and pairs with a simple left part, at every depth, come back |
| `SValueCodec.NestedInjective` | sdk/src/serialization/index.ts:170-190 | no two of them share an encoding |
| `SValueCodec.SerializeSValues` | sdk/src/serialization/index.ts:195-204 | the loop serializes the first six values in order and stops at the first failure |
| `SValueCodec.RegistersMeaning` | sdk/src/serialization/index.ts:195-204 | all or none: there is a result exactly if each of the first six values serializes, and register k holds the bytes of value k |
| `SValueCodec.WireTags` | sdk/src/serialization/index.ts:54-190 | the bytes of every form, in numbers |
| `SValueCodec.SerializableIff` | sdk/src/serialization/index.ts:111-190 | serialization fails exactly on a SigmaProp key that is not 33 bytes |
| `SValueCodec.SigmaPropReadsMore` | sdk/src/serialization/index.ts:399-401 | a SigmaProp comes back with byte cd in front of the key |
| `SValueCodec.UnknownFirstByte` | sdk/src/serialization/index.ts:388-414 | no bytes and an unknown first byte are refused |
| `Reveal.RevealMatchesBackend` | frontend/src/services/coinflipService.ts:323-377 | for every secret and choice, either register form, the reveal reaches the backend's outcome; a win pays floor(97b/50), a loss b |
| `Reveal.OneByteSecretLost` | frontend/src/services/coinflipService.ts:355-373 | a one-byte secret in untagged form is hashed as empty |
| `Reveal.CommitBinds` | backend/rng_module.py:76-123 | a commitment verifies for its secret and choice and, but for a hash collision, for nothing else |
| `Reveal.PayoutShares` | frontend/src/services/coinflipService.ts:453-455 | refund and win shares with their rounding |
| `Reveal.ComputeRngMeaning` | backend/rng_module.py:40-73 | the parity of the first byte of the hash of block id then secret |
| `Reveal.CommitIff` | backend/rng_module.py:76-101 | a commitment exists exactly for 8 bytes and a choice of 0 or 1, and is the hash of secret then choice |
| `Reveal.VerifyIff` | backend/rng_module.py:104-123 | accepted exactly if it is the commitment of that secret and choice |
| `Reveal.RevealRefusals` | frontend/src/services/coinflipService.ts:349-362 | the reveal needs both registers |
| `TransactionBuilder.Builder.constructor` | sdk/src/transaction/TransactionBuilder.ts:24-28 | defaults for fee and minimum box value |
| `TransactionBuilder.Builder.SetFee` | sdk/src/transaction/TransactionBuilder.ts:40-43 | changes the fee only |
| `TransactionBuilder.Builder.SetChangeAddress` | sdk/src/transaction/TransactionBuilder.ts:48-51 | changes the change address only |
| `TransactionBuilder.Builder.Build` | sdk/src/transaction/TransactionBuilder.ts:61-115 | result and new fee; a success spends its inputs to the last nanoERG, a failure leaves the fee alone |
| `TransactionBuilder.BuildConserves` | sdk/src/transaction/TransactionBuilder.ts:61-115 | inputs equal outputs plus returned fee, caller's outputs are a prefix, at most one change output of at least the minimum, dust below it |
| `TransactionBuilder.BuildSucceedsIff` | sdk/src/transaction/TransactionBuilder.ts:65-101 | when a build succeeds: a change address is needed even for dust |
| `TransactionBuilder.InputTotalMeaning` | sdk/src/transaction/TransactionBuilder.ts:70-70 | the input total is zero, one value, and additive |
| `TransactionBuilder.OutputTotalMeaning` | sdk/src/transaction/TransactionBuilder.ts:73-73 | and so is the output total |
| `TransactionBuilder.BuildRefusals` | sdk/src/transaction/TransactionBuilder.ts:65-97 | which error is raised, with its amount |
| `TransactionBuilder.LeftoverMeaning` | sdk/src/transaction/TransactionBuilder.ts:99-108 | from the minimum on one change output of exactly the leftover, below it more fee |
| `TransactionBuilder.RebuildSame` | sdk/src/transaction/TransactionBuilder.ts:103-114 | building the same request again gives the same result and changes nothing more |
| `TransactionBuilder.AbsorbsIff` | sdk/src/transaction/TransactionBuilder.ts:95-107 | a build changes the builder exactly when the request has inputs, a change address is set and what is left over is positive and below the minimum; then the fee grows by that |
| `TransactionBuilder.FeeDrift` | sdk/src/transaction/TransactionBuilder.ts:103-114 | over any run the stored fee grows by exactly the dust the requests leave, at most n times (minimum - 1) |
| `TransactionBuilder.NoDriftIff` | sdk/src/transaction/TransactionBuilder.ts:103-114 | a run leaves the fee as it was exactly when none of its requests leaves dust |
| `TransactionBuilder.DriftBoundReached` | sdk/src/transaction/TransactionBuilder.ts:103-114 | that bound is attained for every n |
| `TransactionBuilder.DriftRefusesIff` | sdk/src/transaction/TransactionBuilder.ts:79-93 | when a drifted fee makes a builder refuse a request it accepted before |
| `Oracle.InitEndpoints` | worktrees/agent-devops-engineer-jr-MAT-157-docker-setup/backend/oracle_service.py:106-128 | primary first, backups in configured order, sorted by priority |
| `Oracle.OracleService.constructor` | worktrees/agent-devops-engineer-jr-MAT-157-docker-setup/backend/oracle_service.py:94-104 | a new service starts at the primary endpoint, not yet started |
| `Oracle.OracleService.GetOracleData` | worktrees/agent-devops-engineer-jr-MAT-157-docker-setup/backend/oracle_service.py:167-245 | one call: the data of the first answer as it is, the index, health entries, feed time and the endpoints asked |
| `Oracle.Rotation` | worktrees/agent-devops-engineer-jr-MAT-157-docker-setup/backend/oracle_service.py:236-239 | n attempts visit every endpoint once in cyclic order and end where they began; without failover all go to one |
| `Oracle.FailuresMeaning` | worktrees/agent-devops-engineer-jr-MAT-157-docker-setup/backend/oracle_service.py:190-242 | failed attempts go to the endpoints in rotation and mark exactly those |
| `Oracle.MarkedMeaning` | worktrees/agent-devops-engineer-jr-MAT-157-docker-setup/backend/oracle_service.py:222-229 | exactly the endpoints that failed are marked, each with its last error |
| `Oracle.CallMeaning` | worktrees/agent-devops-engineer-jr-MAT-157-docker-setup/backend/oracle_service.py:186-245 | with failover no endpoint is asked twice; an answer comes exactly if one of n attempts answers; total failure asks all and returns to the start |
| `Oracle.DataMeaning` | worktrees/agent-devops-engineer-jr-MAT-157-docker-setup/backend/oracle_service.py:190-210 | the data returned is that of the first attempt that answers, as it is |
| `Oracle.NoData` | worktrees/agent-devops-engineer-jr-MAT-157-docker-setup/backend/oracle_service.py:244-245 | and none after total failure |
| `Oracle.PlaceNext` | worktrees/agent-devops-engineer-jr-MAT-157-docker-setup/backend/oracle_service.py:235-237 | after a failure the next endpoint in the list is current, or the same one without failover |
| `Oracle.DataIff` | worktrees/agent-devops-engineer-jr-MAT-157-docker-setup/backend/oracle_service.py:190-207 | data comes back exactly when one of n attempts answers with something other than null and all before it fail |
| `Oracle.NullAnswerEnds` | worktrees/agent-devops-engineer-jr-MAT-157-docker-setup/backend/oracle_service.py:202-207 | a null answer ends the call with nothing, whatever later endpoints would have answered |
| `Oracle.AllMarked` | worktrees/agent-devops-engineer-jr-MAT-157-docker-setup/backend/oracle_service.py:222-229 | total failure marks every endpoint with an error of this call |
| `Oracle.NoFailoverCall` | worktrees/agent-devops-engineer-jr-MAT-157-docker-setup/backend/oracle_service.py:235-242 | without failover the current endpoint is asked n times and nothing else changes |
| `Oracle.IndexCountsFailures` | worktrees/agent-devops-engineer-jr-MAT-157-docker-setup/backend/oracle_service.py:190-242 | over any run of calls, with failover the index has advanced by the failed attempts of all of them, without it has stayed |
| `Streaks.CurrentStreak` | backend/game_routes.py:228-243 | the backward loop gives the signed length of the last run of resolved bets |
| `Streaks.LongestStreaks` | backend/game_routes.py:245-263 | the one-pass loop gives the longest run of each kind |
| `Streaks.CurrentWithinLongest` | backend/game_routes.py:228-263 | the current streak never exceeds the longest run of its kind that the second loop finds |
| `Streaks.PlayerStreaks` | backend/game_routes.py:228-292 | what the statistics return: the current streak, and zeros as longest streaks, which are right exactly for a player without a won, respectively lost, bet; the current streak stays within them exactly without a resolved bet |
| `Streaks.ZeroIsLongestIff` | backend/game_routes.py:230-231 | a longest streak of 0 is right exactly if no such bet is in the list |
| `Streaks.CurrentWithinZeroIff` | backend/game_routes.py:228-292 | the current streak is within zeros exactly if no bet is resolved |
| `Streaks.OneWinMisreported` | backend/game_routes.py:284-290 | one won bet: current streak 1, longest win streak 1, but 0 is reported |
| `Streaks.LongestMeaning` | backend/game_routes.py:245-263 | the specification is the maximum over all runs |
| `Streaks.StreaksUnique` | backend/game_routes.py:228-263 | at most one value fits each description |
| `AmountFormat.PrintersAgree` | sdk/src/pool/PoolClient.ts:124-135 | both printers print the same string |
| `AmountFormat.FormatReads` | sdk/src/serialization/index.ts:435-452 | the printed string reads back as exactly the amount and has no trailing fractional or leading zero |
| `AmountFormat.DigitMeaning` | sdk/src/serialization/index.ts:435-452 | a digit is the character with its code |
| `AmountFormat.FormatUnique` | sdk/src/serialization/index.ts:435-452 | it is the only such string that reads as the amount |
| `AmountFormat.FormatInjective` | sdk/src/serialization/index.ts:435-452 | different amounts print differently |
| `AmountFormat.ExactDivisorIff` | sdk/src/serialization/index.ts:435-452 | with any divisor, the printer is exact for all amounts exactly when the divisor is the power of ten |
| `AmountFormat.PowerIsDoubleIff` | sdk/src/serialization/index.ts:440-440 | 10^d is a double exactly for d up to 22 |
| `AmountFormat.ExactIff` | sdk/src/serialization/index.ts:435-452 | the printer is exact for all amounts exactly up to 22 decimals |

## Left out

- Network, node and storage access, HTTP status codes, logging and caching: answers of nodes, the
  success of each websocket send, clocks and block heights are arbitrary inputs. The 10-second
  cache of the pool state is left out.
- blake2b256 is a parameter; nothing is claimed about the SDK's `computeRng`, which hashes the block
  id as text.
- The hex text around registers: they are byte strings. A JavaScript string bounds a collection's
  length by 2^31, which the statements about the frontend's 32-bit decoder assume.
- JavaScript number precision beyond 2^53 when the SDK reads an Int from a register nobody's
  encoder wrote; encodings of 32-bit integers are far below.
- Lower-casing and stripping of characters outside ASCII.
- Cancellation of an asyncio task inside a lock section and the ping task; a failing `accept` leaves
  the manager unchanged and is not a separate event.
- `ws_bet_subscription` is a step relation, not a sequential method: its awaits interleave with
  every other handler.
- Building pool boxes from several inputs, wallets, box selection, token balances per address
  (`get_lp_balance`), APY and everything in floating point.
- PoolLifecycle.AfterValid: its Deposit and Execute steps change the pool's value and supply; the
  routes never build the pool-side change that would do so, so the lifecycle is the intended
  protocol with the routes' amounts and refusals. What the routes do build is in `PoolRoutes`.
- PoolMath.EstimateForErgUncapped: the estimates are stated for integer division, which the
  backend's decimals are for amounts a Long can hold (`DecimalPath.LongAmountsAgree`).
- PoolRoutes.ExecuteRouteAcceptedIff: the requested payment comes first among the outputs; what the
  node's wallet adds is arbitrary, and its own refusals (a payment below the minimum box value, a
  script that does not parse) are left out.
- PoolLifecycle.RunPrice: bankroll losses are not among the actions; with them value per share can
  fall.
- WsRegistry.GlobalSnapshotReach: says nothing of the order in which Python iterates a set; a
  snapshot lists it in any order.
- Overflow of R6 + R7 in the withdrawal script: the node then rejects the spend, so the safety
  statements still hold.
- The coinflip contract itself, whose source is not part of this model; the SDK's reveal and refund
  transactions and `BetManager`, which use an older register layout.
- SDK SigmaProp decoding returns the value with a leading byte; `SValueCodec.RoundTripIff` excludes
  it.
- Health checks that write health entries while a call waits for an answer; they do not touch the
  rotation index.
- AmountFormat.ExactIff: assumes of `10 ** decimals` that it is a double, and the power itself when
  that is one; for more than 308 decimals it is infinite and the conversion raises an error, as it
  does for negative and fractional decimals. Amounts are non-negative.
- Bet placement, comp tiers, totals and win rates: sums and thresholds read off one body.
